/**
 * The block store of the lazy stream, as values: how a growing sequence of
 * fixed-capacity blocks lays out the bytes loaded so far, and how far demand
 * loading fills it.  Everything here is pure; the stream class relies on it.
 */
module BlockStore {
  import opened JavaTypes

  /** Number of blocks of capacity `c` needed to hold `x` bytes: the ceiling of `x / c`. */
  function BlocksFor(x: int, c: int): int
    requires c > 0
  {
    (x + c - 1) / c
  }

  /** The byte at stream position `i`: position `i % c` of block `i / c` (0 outside the blocks). */
  ghost function Stored(blocks: seq<seq<int8>>, c: int, i: int): int8
    requires c > 0
  {
    var q, r := i / c, i % c;
    if 0 <= q < |blocks| && r < |blocks[q]| then blocks[q][r] else 0
  }

  /**
   * `blocks` hold the first `size` bytes of `content`: every block has
   * capacity `c`, there are exactly as many blocks as `size` bytes need, byte
   * `i` sits at position `i % c` of block `i / c`, and a last block that is
   * not full means the whole content has been loaded.
   */
  ghost predicate Layout(blocks: seq<seq<int8>>, content: seq<int8>, size: int, c: int)
  {
    && c > 0
    && 0 <= size <= |content|
    && (forall k :: 0 <= k < |blocks| ==> |blocks[k]| == c)
    && (|blocks| - 1) * c < size <= |blocks| * c
    && (size < |blocks| * c ==> size == |content|)
    && (forall i {:trigger Stored(blocks, c, i)} :: 0 <= i < size ==> 0 <= i / c < |blocks| && Stored(blocks, c, i) == content[i])
  }

  /**
   * The block holding position `pos`, counted one block at a time: it is
   * `pos / c` (`BlockIndexDiv`), in a form whose unfolding stays linear.
   */
  ghost function BlockIndex(pos: int, c: int): int
    requires c > 0
    decreases if pos < 0 then 0 else pos
  {
    if pos < c then 0 else 1 + BlockIndex(pos - c, c)
  }

  lemma {:induction false} BlockIndexDiv(pos: int, c: int)
    requires c > 0 && pos >= 0
    ensures BlockIndex(pos, c) == pos / c
    decreases pos
  {
    if pos < c {
      DivMod(pos, c, 0, pos);
    } else {
      BlockIndexDiv(pos - c, c);
      var q, r := (pos - c) / c, (pos - c) % c;
      assert (q + 1) * c == q * c + c;
      DivMod(pos, c, q + 1, r);
    }
  }

  /** The first position of block `k`, counted one block at a time: it is `k * c` (`BlockStartMul`). */
  ghost function BlockStart(k: int, c: int): int
    decreases if k < 0 then 0 else k
  {
    if k <= 0 then 0 else c + BlockStart(k - 1, c)
  }

  /** The position of byte `pos` within its block: it is `pos % c` (`InBlockMod`). */
  ghost function InBlock(pos: int, c: int): int
    requires c > 0
  {
    pos - BlockStart(BlockIndex(pos, c), c)
  }

  lemma {:induction false} BlockStartMul(k: int, c: int)
    requires k >= 0
    ensures BlockStart(k, c) == k * c
    decreases k
  {
    if k > 0 {
      BlockStartMul(k - 1, c);
      assert (k - 1) * c + c == k * c;
    }
  }

  lemma InBlockMod(pos: int, c: int)
    requires c > 0 && pos >= 0
    ensures InBlock(pos, c) == pos % c
  {
    BlockIndexDiv(pos, c);
    BlockStartMul(pos / c, c);
    DivSplit(pos, c);
  }

  /** Byte `i` is position `i % c` of block `i / c`. */
  lemma DivSplit(i: int, c: int)
    requires c > 0
    ensures i == (i / c) * c + i % c && 0 <= i % c < c
  {
  }

  /** Block `q`, position `r` is byte `q * c + r`. */
  lemma DivMod(i: int, c: int, q: int, r: int)
    requires c > 0 && 0 <= r < c && i == q * c + r
    ensures i / c == q && i % c == r
  {
    var q', r' := i / c, i % c;
    assert i == q' * c + r' && 0 <= r' < c;
    assert (q' + 1) * c == q' * c + c && (q + 1) * c == q * c + c;
    if q' < q {
      MulMono(q' + 1, q, c);
    } else if q < q' {
      MulMono(q + 1, q', c);
    }
  }

  lemma MulMono(a: int, b: int, c: int)
    requires a <= b && c > 0
    ensures a * c <= b * c
  {
    assert b * c - a * c == (b - a) * c;
  }

  /** `BlocksFor` is the least block count whose capacity covers `x`. */
  lemma CeilingBounds(x: int, c: int)
    requires c > 0 && x >= 0
    ensures (BlocksFor(x, c) - 1) * c < x <= BlocksFor(x, c) * c
  {
    var q := BlocksFor(x, c);
    var r := (x + c - 1) % c;
    assert x + c - 1 == q * c + r && 0 <= r < c;
    assert (q - 1) * c == q * c - c;
  }

  /** A block count `m` with `(m - 1) * c < x <= m * c` is the ceiling of `x / c`. */
  lemma CeilingUnique(m: int, x: int, c: int)
    requires c > 0 && (m - 1) * c < x <= m * c
    ensures m == BlocksFor(x, c)
  {
    assert (m - 1) * c == m * c - c;
    DivMod(x + c - 1, c, m, x + c - 1 - m * c);
  }

  /** If block `m - 1` starts before `x`, at most `BlocksFor(x, c)` blocks exist. */
  lemma CeilingAtMost(m: int, x: int, c: int)
    requires c > 0 && x >= 0 && (m - 1) * c < x
    ensures m <= BlocksFor(x, c)
  {
    CeilingBounds(x, c);
    if BlocksFor(x, c) < m {
      MulMono(BlocksFor(x, c), m - 1, c);
    }
  }

  /** The number of blocks is `ceil(size / c)`. */
  lemma BlockCount(blocks: seq<seq<int8>>, content: seq<int8>, size: int, c: int)
    requires Layout(blocks, content, size, c)
    ensures |blocks| == BlocksFor(size, c)
  {
    CeilingUnique(|blocks|, size, c);
  }

  /**
   * Block `k` holds `Min(c, size - k * c)` loaded bytes: `c` for every block
   * but the last, and for the last `size % c`, or `c` when that remainder is 0.
   */
  lemma BlockFill(blocks: seq<seq<int8>>, content: seq<int8>, size: int, c: int, k: int)
    requires Layout(blocks, content, size, c)
    ensures 0 <= k < |blocks| - 1 ==> Min(c, size - k * c) == c
    ensures 0 <= k && k == |blocks| - 1 ==> Min(c, size - k * c) == (if size % c == 0 then c else size % c)
    ensures 0 <= k < |blocks| ==> 0 < Min(c, size - k * c) <= c
  {
    var n := |blocks|;
    assert (n - 1) * c == n * c - c;
    if 0 <= k < n - 1 {
      MulMono(k, n - 2, c);
      assert (n - 2) * c == n * c - 2 * c;
    } else if 0 <= k && k == n - 1 {
      var r := size - k * c;
      assert 0 < r <= c;
      if r == c {
        DivMod(size, c, n, 0);
      } else {
        DivMod(size, c, k, r);
      }
    }
  }

  /**
   * One step of copying out of the store, from position `pos` in block
   * `current`: of the `Min(c, size - current * c)` bytes loaded in that block,
   * the `toCopy` taken from `pos % c` on (at most `wanted`) are the content's
   * bytes from `pos` on; stopping short of `wanted` means all of the block's
   * bytes were taken, which leads to the start of the next block, or to the
   * end of the loaded bytes when this is the last block.
   */
  lemma CopyStep(blocks: seq<seq<int8>>, content: seq<int8>, size: int, c: int, pos: int, current: int, wanted: int, toCopy: int)
    requires Layout(blocks, content, size, c) && 0 <= pos <= size
    requires 0 <= current < |blocks| && current == BlockIndex(pos, c) && wanted > 0
    requires toCopy == Min(Min(c, size - current * c) - pos % c, wanted)
    ensures 0 <= toCopy <= wanted && pos + toCopy <= size && pos % c + toCopy <= c
    ensures forall j :: pos % c <= j < pos % c + toCopy ==> blocks[current][j] == content[pos + (j - pos % c)]
    ensures toCopy < wanted ==>
      && (current + 1 < |blocks| ==> BlockIndex(pos + toCopy, c) == current + 1 && pos + toCopy == (current + 1) * c)
      && (current + 1 >= |blocks| ==> pos + toCopy == size)
  {
    BlockIndexDiv(pos, c);
    StepArith(|blocks|, size, c, pos, Min(c, size - current * c));
    DivSplit(pos, c);
    BlockSlice(blocks, content, size, c, current, pos % c, pos, toCopy);
    forall j | pos % c <= j < pos % c + toCopy
      ensures blocks[current][j] == content[pos + (j - pos % c)]
    {
      assert blocks[current][pos % c..pos % c + toCopy][j - pos % c] == content[pos..pos + toCopy][j - pos % c];
    }
    BlockIndexDiv(pos + toCopy, c);
  }

  /** The arithmetic of `CopyStep`, for `n` blocks holding `size` bytes. */
  lemma StepArith(n: int, size: int, c: int, pos: int, blockSize: int)
    requires c > 0 && (n - 1) * c < size <= n * c && 0 <= pos <= size && pos / c < n
    requires blockSize == Min(c, size - pos / c * c)
    ensures 0 <= blockSize - pos % c <= size - pos && blockSize <= c
    ensures pos / c + 1 < n ==> pos + (blockSize - pos % c) == (pos / c + 1) * c
    ensures pos / c + 1 < n ==> (pos + (blockSize - pos % c)) / c == pos / c + 1
    ensures pos / c + 1 >= n ==> pos + (blockSize - pos % c) == size
  {
    var q := pos / c;
    assert pos == q * c + pos % c;
    assert (n - 1) * c == n * c - c && (q + 1) * c == q * c + c;
    if q + 1 < n {
      MulMono(q + 1, n - 1, c);
      DivMod(q * c + c, c, q + 1, 0);
    } else {
      MulMono(n, q + 1, c);
    }
  }

  /** A position whose block lies past the store is the end of the loaded bytes. */
  lemma PastStore(blocks: seq<seq<int8>>, content: seq<int8>, size: int, c: int, pos: int)
    requires Layout(blocks, content, size, c) && 0 <= pos <= size && pos / c >= |blocks|
    ensures pos == size
  {
    assert pos == (pos / c) * c + pos % c;
    MulMono(|blocks|, pos / c, c);
  }

  /** Position `r` of block `q` holds byte `q * c + r` of the content. */
  lemma StoredPoint(blocks: seq<seq<int8>>, content: seq<int8>, size: int, c: int, q: int, r: int)
    requires Layout(blocks, content, size, c)
    requires 0 <= q < |blocks| && 0 <= r < c && q * c + r < size
    ensures blocks[q][r] == content[q * c + r]
  {
    DivMod(q * c + r, c, q, r);
    assert Stored(blocks, c, q * c + r) == content[q * c + r];
  }

  /** The `n` bytes of block `q` from position `r` on are the content's bytes from `i == q * c + r` on. */
  lemma BlockSlice(blocks: seq<seq<int8>>, content: seq<int8>, size: int, c: int, q: int, r: int, i: int, n: int)
    requires Layout(blocks, content, size, c)
    requires 0 <= q < |blocks| && 0 <= r && 0 <= n && r + n <= c && i == q * c + r && i + n <= size
    ensures blocks[q][r..r + n] == content[i..i + n]
  {
    var inBlock, wanted := blocks[q][r..r + n], content[i..i + n];
    forall t | 0 <= t < n
      ensures inBlock[t] == wanted[t]
    {
      StoredPoint(blocks, content, size, c, q, r + t);
    }
  }

  /**
   * Appending a block that holds the next `k` bytes of the content keeps the
   * layout, provided the store was full before: this is what `loadBlock`
   * does after a fill of `k` bytes.
   */
  lemma AppendBlock(blocks: seq<seq<int8>>, content: seq<int8>, size: int, c: int, block: seq<int8>, k: int)
    requires Layout(blocks, content, size, c) && size == |blocks| * c
    requires |block| == c && 0 < k <= c && size + k <= |content|
    requires block[..k] == content[size..size + k]
    requires k < c ==> size + k == |content|
    ensures Layout(blocks + [block], content, size + k, c)
  {
    var b, n := blocks + [block], |blocks|;
    AppendArith(n, size, c, k);
    forall i | 0 <= i < size + k
      ensures 0 <= i / c < |b| && Stored(b, c, i) == content[i]
    {
      if i < size {
        assert Stored(blocks, c, i) == content[i];
        assert b[i / c] == blocks[i / c];
      } else {
        DivMod(i, c, n, i - size);
        assert block[i - size] == block[..k][i - size];
      }
    }
  }

  /** The block count stays the ceiling when `k` bytes go into a new block after `n` full ones. */
  lemma AppendArith(n: int, size: int, c: int, k: int)
    requires c > 0 && size == n * c && 0 < k <= c
    ensures (n + 1 - 1) * c < size + k <= (n + 1) * c
    ensures size + k < (n + 1) * c ==> k < c
  {
    assert (n + 1) * c == n * c + c;
  }

  /**
   * How far demand loading fills the store: when `size` bytes are loaded and
   * the caller needs everything below position `needed`, nothing is loaded if
   * that is already there; otherwise whole blocks are loaded until `needed` is
   * covered or the content runs out.
   */
  function LoadTarget(size: int, needed: int, total: int, c: int): (r: int)
    requires c > 0 && 0 <= size <= total
    ensures size <= r <= total
    ensures r >= Min(needed, total)
    ensures needed > size ==> r < needed + c
  {
    if needed <= size then size
    else
      CeilingBounds(needed, c);
      assert (BlocksFor(needed, c) - 1) * c == BlocksFor(needed, c) * c - c;
      Min(total, BlocksFor(needed, c) * c)
  }

  /**
   * The loading loop stops at `LoadTarget`: started at `s0` bytes, it has
   * appended blocks only while short of `needed` (so the last of its `m`
   * blocks starts below `needed`), and stopped with `size` bytes because
   * `needed` was covered or the content ran out.
   */
  lemma LoadLoopExit(s0: int, size: int, m: int, needed: int, total: int, c: int)
    requires c > 0 && 0 <= s0 <= size <= total
    requires (m - 1) * c < size <= m * c
    requires size < m * c ==> size == total
    requires size == s0 || (s0 < needed && (m - 1) * c < needed)
    requires size >= needed || size == total
    requires s0 < needed && size == s0 ==> size == total
    ensures size == LoadTarget(s0, needed, total, c)
  {
    if s0 < needed {
      CeilingBounds(needed, c);
      var q := BlocksFor(needed, c);
      if size == total {
        if size != s0 {
          CeilingAtMost(m, needed, c);
          MulMono(m, q, c);
        }
      } else {
        CeilingUnique(m, needed, c);
      }
    }
  }
}
