# LazyInputStream, modelled in Dafny

This project models `org.eclipse.core.internal.content.LazyInputStream`, the
re-readable input stream that Eclipse's content-type detection wraps around a
single-pass `InputStream`. The stream pulls bytes from the wrapped input one
block of `blockCapacity` bytes at a time, and only when a `read` or `skip`
needs them. It keeps every block it has loaded, so `mark`/`reset` can rewind
to any earlier position without asking the input again.

Modules:

- `JavaTypes` (`java_types.dfy`): the Java primitives the class relies on.
  - `int8` is Java's `byte`.
  - `Unsigned` is `0xFF & b`.
  - `Min` is `Math.min`.
  - `ArrayCopy` is `System.arraycopy` into a caller's array.
- `ByteSources` (`byte_source.dfy`): the wrapped input as a class.
  - `remaining` holds the bytes it has yet to deliver.
  - `Read` fills the whole buffer unless fewer bytes remain.
  - `Read` returns -1 only when nothing remains.
- `BlockStore` (`block_store.dfy`): pure definitions and lemmas.
  - `Layout` says how the block store lays out the bytes loaded so far: byte `i` sits at position `i % blockCapacity` of block `i / blockCapacity`.
  - Every block but the last is full.
  - A short last block means the input is exhausted.
  - `LoadTarget` says how far demand loading fills the store.
- `LazyInput` (`lazy_input_stream.dfy`): the class `LazyInputStream`.
  - It has the Java fields `blocks`, `bufferSize`, `offset`, `mark`, `blockCapacity` and `input`.
  - The ghost constant `source` holds everything the input delivers from the moment it is wrapped.
  - The invariant `Valid()` ties the fields to `source`.
  - Every method is proved against `source`. For example, `read()` returns `source[offset]` as an unsigned value, or -1 exactly at the end of `source`.
  - `read(b, off, len)` leaves `b` equal to its old contents with the next bytes of `source` written over `b[off..]`.
- `Scenarios` (`scenarios.dfy`): clients of the stream.
  - The 7-byte "ABCDEFG" example with block capacity 4.
  - The single-use mark.
  - A loop that reads single bytes to the end and gets back exactly the rest of `source`.

Two structural notes:

- The loop of `copyFromBuffer` (and its `offset / blockCapacity` start) is the method `CopyBlocks`.
- One pass of that loop is `CopyFromBlock`. It also does the pass's `offset += toCopy`.

`CopyFromBuffer` keeps the Java signature and adds the stream invariant around the two.

`read(b, off, len)` returns -1 whenever it copies nothing. That includes a request for 0 bytes, or fewer, while bytes remain. The model follows the code here, not the reading of -1 as "nothing was available".

## Model

| member | source | states |
|---|---|---|
| JavaTypes.Unsigned | bundles/org.eclipse.core.runtime/src/org/eclipse/core/internal/content/LazyInputStream.java:110 | `0xFF & b` is in 0..255 and congruent to the byte modulo 256 |
| JavaTypes.Min | bundles/org.eclipse.core.runtime/src/org/eclipse/core/internal/content/LazyInputStream.java:40 | `Math.min`: the result is one of the two arguments and no larger than either |
| JavaTypes.ArrayCopy | bundles/org.eclipse.core.runtime/src/org/eclipse/core/internal/content/LazyInputStream.java:41 | `System.arraycopy`: `dest[destPos..destPos+length]` receives `src[srcPos..srcPos+length]` position by position, and every other element of `dest` is unchanged |
| JavaTypes.Spliced | bundles/org.eclipse.core.runtime/src/org/eclipse/core/internal/content/LazyInputStream.java:33-47 | an array that holds `src[lo..lo+n]` at `at..at+n` and the old contents elsewhere equals `orig[..at] + src[lo..lo+n] + orig[at+n..]` |
| ByteSources.ByteSource.Read | bundles/org.eclipse.core.runtime/src/org/eclipse/core/internal/content/LazyInputStream.java:87 | `in.read(newBlock)` on a well-behaved input: it fills `min(len, remaining)` bytes with the next bytes and consumes them, or returns -1 with nothing consumed when the input is empty |
| BlockStore.BlockIndexDiv | bundles/org.eclipse.core.runtime/src/org/eclipse/core/internal/content/LazyInputStream.java:35 | counting blocks one capacity at a time gives `offset / blockCapacity` |
| BlockStore.BlockCount | bundles/org.eclipse.core.runtime/src/org/eclipse/core/internal/content/LazyInputStream.java:58-60 | the number of blocks is `ceil(bufferSize / blockCapacity)` |
| BlockStore.BlockFill | bundles/org.eclipse.core.runtime/src/org/eclipse/core/internal/content/LazyInputStream.java:62-67 | block `k` holds `blockCapacity` loaded bytes when it is not the last, and `bufferSize % blockCapacity` (or `blockCapacity` when that is 0) when it is the last; always between 1 and `blockCapacity` |
| BlockStore.PastStore | bundles/org.eclipse.core.runtime/src/org/eclipse/core/internal/content/LazyInputStream.java:35-36 | a position whose block `offset / blockCapacity` lies past the store is the end of the loaded bytes, so the copy loop copies nothing |
| BlockStore.StoredPoint | bundles/org.eclipse.core.runtime/src/org/eclipse/core/internal/content/LazyInputStream.java:110 | position `r` of block `q` holds byte `q * blockCapacity + r` of the input |
| BlockStore.BlockSlice | bundles/org.eclipse.core.runtime/src/org/eclipse/core/internal/content/LazyInputStream.java:38-41 | the `n` bytes of block `q` from position `r` on are the input's bytes from `q * blockCapacity + r` on |
| BlockStore.CopyStep | bundles/org.eclipse.core.runtime/src/org/eclipse/core/internal/content/LazyInputStream.java:37-44 | one pass of the copy loop takes `min(blockSize - offsetInBlock, needed - copied)` bytes. These are the input's bytes at `offset..offset+toCopy` and stay within the block and the loaded bytes. Taking fewer than wanted means the block was used up, so the next pass starts at block `current + 1` at its first byte, or the loaded bytes are exhausted |
| BlockStore.BlockStartMul | bundles/org.eclipse.core.runtime/src/org/eclipse/core/internal/content/LazyInputStream.java:43-44 | the start of block `k`, reached by adding one capacity per pass, is `k * blockCapacity` |
| BlockStore.InBlockMod | bundles/org.eclipse.core.runtime/src/org/eclipse/core/internal/content/LazyInputStream.java:38 | the position within its block, the offset less its block's start, is `offset % blockCapacity` |
| BlockStore.StepArith | bundles/org.eclipse.core.runtime/src/org/eclipse/core/internal/content/LazyInputStream.java:37-40 | the block arithmetic of one pass: the bytes left in the block do not run past the loaded bytes, and using them up lands at the start of the next block, or at `bufferSize` in the last block |
| BlockStore.AppendBlock | bundles/org.eclipse.core.runtime/src/org/eclipse/core/internal/content/LazyInputStream.java:91-94 | appending a block that holds the next `k` input bytes to a full store keeps the block layout, with `bufferSize + k` bytes loaded |
| BlockStore.LoadTarget | bundles/org.eclipse.core.runtime/src/org/eclipse/core/internal/content/LazyInputStream.java:49-55 | demand loading ends with at least `min(needed, total)` bytes loaded and never shrinks the store. Without a request beyond the loaded bytes it loads nothing, and otherwise it stops within one block of what was needed |
| BlockStore.LoadLoopExit | bundles/org.eclipse.core.runtime/src/org/eclipse/core/internal/content/LazyInputStream.java:51-54 | the loading loop's exit state (enough loaded, or a short load) is exactly `LoadTarget` |
| LazyInput.LazyInputStream.constructor | bundles/org.eclipse.core.runtime/src/org/eclipse/core/internal/content/LazyInputStream.java:24-27 | a new stream holds no blocks, with `bufferSize`, `offset` and `mark` all 0, and satisfies the invariant |
| LazyInput.LazyInputStream.Available | bundles/org.eclipse.core.runtime/src/org/eclipse/core/internal/content/LazyInputStream.java:29-31 | the result is the number of loaded unread bytes plus the input's estimate, so never less than the loaded unread bytes |
| LazyInput.LazyInputStream.CopyFromBuffer | bundles/org.eclipse.core.runtime/src/org/eclipse/core/internal/content/LazyInputStream.java:33-47 | copies `min(needed, bufferSize - offset)` bytes (0 when `needed <= 0`). Afterwards the user buffer is its old contents with the input's bytes from the old `offset` written over `userBuffer[userOffset..]`. `offset` advances by the count and the invariant holds |
| LazyInput.LazyInputStream.CopyBlocks | bundles/org.eclipse.core.runtime/src/org/eclipse/core/internal/content/LazyInputStream.java:34-46 | the block-by-block loop copies `min(needed, bufferSize - offset)` bytes in order from the input position `offset` to `userBuffer[userOffset..]`, leaves every other element unchanged, and advances `offset` by the count |
| LazyInput.LazyInputStream.CopyFromBlock | bundles/org.eclipse.core.runtime/src/org/eclipse/core/internal/content/LazyInputStream.java:37-44 | one pass copies `toCopy == min(blockSize - offsetInBlock, wanted)` bytes, where `blockSize` is `min(blockCapacity, bufferSize - start of block current)` and `offsetInBlock` is the old offset less that start, so the copy never runs past the end of block `current`. The bytes extend the copy of the input made so far, every other element of the user buffer is unchanged, and `offset` advances by `toCopy`. A pass that copies fewer than `wanted` bytes leaves `offset` at the start of block `current + 1`, or at `bufferSize` when `current` is the last block |
| LazyInput.LazyInputStream.EnsureAvailable | bundles/org.eclipse.core.runtime/src/org/eclipse/core/internal/content/LazyInputStream.java:49-55 | loading only appends blocks. It loads nothing when `offset + bytesToRead` bytes are already loaded, and otherwise ends with `bufferSize == LoadTarget(...)`, keeping the invariant |
| LazyInput.LazyInputStream.GetBlockCount | bundles/org.eclipse.core.runtime/src/org/eclipse/core/internal/content/LazyInputStream.java:58-60 | the block count is `ceil(bufferSize / blockCapacity)` |
| LazyInput.LazyInputStream.ComputeBlockSize | bundles/org.eclipse.core.runtime/src/org/eclipse/core/internal/content/LazyInputStream.java:62-67 | the result is in `1..blockCapacity`. For a block of the store it is the number of loaded bytes in that block, `min(blockCapacity, bufferSize - blockIndex * blockCapacity)` |
| LazyInput.LazyInputStream.GetBufferSize | bundles/org.eclipse.core.runtime/src/org/eclipse/core/internal/content/LazyInputStream.java:70-72 | the loaded byte count is exactly what the input has delivered: the input's remaining bytes are `source[bufferSize..]` |
| LazyInput.LazyInputStream.GetMark | bundles/org.eclipse.core.runtime/src/org/eclipse/core/internal/content/LazyInputStream.java:75-77 | the mark is a position among the loaded bytes |
| LazyInput.LazyInputStream.GetOffset | bundles/org.eclipse.core.runtime/src/org/eclipse/core/internal/content/LazyInputStream.java:80-82 | the read position is never past the loaded bytes |
| LazyInput.LazyInputStream.LoadBlock | bundles/org.eclipse.core.runtime/src/org/eclipse/core/internal/content/LazyInputStream.java:84-96 | returns `min(blockCapacity, bytes left in the input)`. At the end of the input (read -1) it returns 0 and appends nothing. Otherwise it appends exactly one block holding the freshly read bytes and keeps every earlier block |
| LazyInput.LazyInputStream.Mark | bundles/org.eclipse.core.runtime/src/org/eclipse/core/internal/content/LazyInputStream.java:98-100 | `mark := offset`, whatever the read limit |
| LazyInput.LazyInputStream.Read | bundles/org.eclipse.core.runtime/src/org/eclipse/core/internal/content/LazyInputStream.java:106-113 | returns -1 exactly when every byte of the input has been read, leaving `offset` unchanged. Otherwise it returns `source[offset]` as an unsigned value and advances `offset` by 1. It loads at most the block holding that byte |
| LazyInput.LazyInputStream.ReadArray | bundles/org.eclipse.core.runtime/src/org/eclipse/core/internal/content/LazyInputStream.java:115-117 | `read(b)` reads `min(b.Length, bytes left)` bytes into the front of `b`, keeping the rest of `b`, and returns the count, or -1 when it is 0 |
| LazyInput.LazyInputStream.ReadArrayRange | bundles/org.eclipse.core.runtime/src/org/eclipse/core/internal/content/LazyInputStream.java:119-123 | `read(b, off, len)` loads on demand, then copies `min(len, bytes left)` bytes (none when `len <= 0`) in order into `b[off..]`, keeping the rest of `b`. It advances `offset` by the count and returns the count, or -1 when it is 0 |
| LazyInput.LazyInputStream.Reset | bundles/org.eclipse.core.runtime/src/org/eclipse/core/internal/content/LazyInputStream.java:125-128 | `offset := mark`, then `mark := 0` |
| LazyInput.LazyInputStream.Skip | bundles/org.eclipse.core.runtime/src/org/eclipse/core/internal/content/LazyInputStream.java:130-137 | a count of 0 or less returns 0 without loading. Otherwise it loads on demand and skips `min(toSkip, bytes left)` bytes, returning that number |
| Scenarios.UnsignedBytes | bundles/org.eclipse.core.runtime/src/org/eclipse/core/internal/content/LazyInputStream.java:110 | the unsigned values of a byte sequence, element by element |
| Scenarios.UnsignedBytesSnoc | bundles/org.eclipse.core.runtime/src/org/eclipse/core/internal/content/LazyInputStream.java:106-113 | one more `read()` extends the values read so far by the next byte's unsigned value |
| Scenarios.ReadThenSkip | bundles/org.eclipse.core.runtime/src/org/eclipse/core/internal/content/LazyInputStream.java:115-137 | over "ABCDEFG" with capacity 4, reading 5 bytes gives "ABCDE" and loads 2 blocks (7 bytes). A following `skip(10)` skips 2, after which `available()` is 0 |
| Scenarios.MarkReadReset | bundles/org.eclipse.core.runtime/src/org/eclipse/core/internal/content/LazyInputStream.java:98-128 | mark at 2, read to the end, reset: the next `read()` returns 'C' without a new load. A second reset rewinds to 0 |
| Scenarios.MarkThenReset | bundles/org.eclipse.core.runtime/src/org/eclipse/core/internal/content/LazyInputStream.java:98-128 | `mark` immediately followed by `reset` keeps the read position and the store, and clears the mark |
| Scenarios.ReadToEnd | bundles/org.eclipse.core.runtime/src/org/eclipse/core/internal/content/LazyInputStream.java:106-113 | calling `read()` until -1 returns exactly the rest of the input, in order |

## Left out

- `IOException` from `in.read`/`in.available` is not modelled. The Java code replaces `blocks` only after a successful read, so a failed load would leave the state unchanged.
- `in.available()` is the parameter `inAvailable` of `Available`, a non-negative number supplied by the caller.
- Inputs whose `read` returns a short count before the end are excluded by the contract of `ByteSource.Read`. With such an input the Java code can append a block after a partial one, which breaks the `offset / blockCapacity` indexing.
- Java `int` and `long` arithmetic is unbounded here. In Java, `offset += skipped` cannot overflow, because `skipped <= bufferSize - offset`. An input longer than `Integer.MAX_VALUE` bytes would wrap `bufferSize`, and is not modelled.
- LazyInput.LazyInputStream.Skip: the `long` sum `offset + bytesToRead` in `ensureAvailable` (line 51) does not overflow in the model. In Java, `skip(toSkip)` with `offset + toSkip > Long.MAX_VALUE` wraps that sum to a negative number, for example `skip(Long.MAX_VALUE)` once `offset > 0`. Java then loads nothing and skips only the loaded unread bytes. The model loads to the end of the input and skips every byte that remains.
- LazyInput.LazyInputStream.EnsureAvailable: the contract states the bytes loaded, not how many times `in.read` is called. Every call restarts `loadedBlockSize` at `blockCapacity` (line 50). So after the input is used up, a request beyond the loaded bytes calls `in.read` once more. That call returns -1 and changes no state.
- `markSupported()`, which always returns `true`, is not modelled.
- Java arrays of blocks are the sequence `blocks` of byte sequences. A block is never written after its read, so the aliasing between `newBlock` and `blocks[blocks.length - 1]` plays no part. The copy of the block array into `tmpBlocks` is the sequence append.
- LazyInput.LazyInputStream.constructor: requires `blockCapacity > 0`. With a capacity of 0, every call that loads (`read()`, `skip(n)` with `n > 0`, `read(b, off, len)` with `len > 0`) loops forever in Java: `new byte[0]` reads 0 bytes, so `bufferSize` never grows and `loadedBlockSize == blockCapacity` stays true. A `read(b, off, len)` with `len <= 0` and a capacity of 0 throws at the division `offset / blockCapacity` (line 35). With a negative capacity, a call that loads throws at the allocation on line 86. The termination measure of `EnsureAvailable` relies on this requires: every full block it loads takes `blockCapacity > 0` bytes from the input.
- LazyInput.LazyInputStream.ReadArrayRange: requires `0 <= off <= b.Length`, and requires that the bytes it will copy, `min(len, bytes left)`, fit in `b[off..]`. A `len` larger than the room in `b` is allowed when fewer bytes remain. The calls this excludes are of two kinds. Most are calls where `System.arraycopy` throws `IndexOutOfBoundsException`. This happens even on a pass that copies 0 bytes, when the loaded bytes end inside a partly filled last block and `off` lies outside `0..b.Length`. Before the throw, `ensureAvailable` may already have loaded blocks, and earlier passes may have written into `b` and advanced `offset`; the throw can also come on the first pass. None of these partial effects are modelled. The remaining excluded calls are those with `off` outside `0..b.Length` where Java returns -1 without calling `System.arraycopy`. That is when `len <= 0`, or when nothing is left and `bufferSize` is a multiple of `blockCapacity`, so that `offset / blockCapacity == blocks.length`. `CopyFromBuffer` and `CopyBlocks` carry the same requires.
- LazyInput.LazyInputStream.ReadArray: a `null` array (a `NullPointerException` in Java) is not modelled.
- LazyInput.LazyInputStream.ReadArrayRange: a `null` array is not modelled either, since `b` is a non-null `array<int8>`. In Java, `read(null, off, len)` returns -1 without touching `b` whenever the copy loop never runs: when `len <= 0`, or when nothing is left and `bufferSize` is a multiple of `blockCapacity`.
- `PluginStopper.java` (in `org.eclipse.core.runtime.compatibility`) is not part of this model.
