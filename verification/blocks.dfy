/** Block-granular access to a file disk, shared by both filesystem revisions: a block is
    4096 bytes, block `b` covers bytes `[b * 4096, (b + 1) * 4096)`, and it is read or
    written through the disk's own range check. */
module Blocks {
  import opened Byte
  import opened Device
  import opened Disk

  const BlockSize: nat := 4096

  /** `n` zero bytes: a fresh `bytearray(n)`. */
  function Zeros(n: nat): (r: seq<byte>)
    ensures |r| == n && forall i :: 0 <= i < n ==> r[i] == 0
  {
    seq(n, i => 0)
  }

  /** Python's `range(a, b)`: empty when `b <= a`. */
  function Range(a: int, b: int): (r: seq<int>)
    ensures |r| == if b <= a then 0 else b - a
    ensures forall i :: 0 <= i < |r| ==> r[i] == a + i
    ensures forall x :: x in r <==> a <= x < b
    decreases b - a
  {
    if b <= a then [] else [a] + Range(a + 1, b)
  }

  /** A whole block can be read from (or written to) a device of `size` bytes: its range
      passes the device's range check. */
  predicate Readable(size: int, b: int) {
    IsValidRange(b * BlockSize, BlockSize, size)
  }

  /** The bytes of block `b`. */
  function BlockAt(bytes: seq<byte>, b: int): (r: seq<byte>)
    requires Readable(|bytes|, b)
    ensures |r| == BlockSize
    ensures forall i :: 0 <= i < BlockSize ==> r[i] == bytes[b * BlockSize + i]
  {
    bytes[b * BlockSize..(b + 1) * BlockSize]
  }

  /** Byte `j` belongs to block `b` and that block passes the range check of a device of
      `size` bytes. */
  predicate Written(size: int, b: int, j: int) {
    Readable(size, b) && b * BlockSize <= j < (b + 1) * BlockSize
  }

  /** The device bytes after one block of `data` is written at block `b` of a file disk:
      the block is replaced when it passes the range check, and otherwise the disk keeps
      every byte (its `write` still reports success). */
  function FlushBlock(bytes: seq<byte>, b: int, data: seq<byte>): (r: seq<byte>)
    requires |data| == BlockSize
    ensures |r| == |bytes|
    ensures forall j :: 0 <= j < |bytes| ==>
              r[j] == if Written(|bytes|, b, j) then data[j - b * BlockSize] else bytes[j]
  {
    if Readable(|bytes|, b) then Overwrite(bytes, data, b * BlockSize) else bytes
  }

  /** Byte `j` lies in one of the blocks of `bl` that the device can write. */
  ghost predicate Covered(size: int, bl: seq<int>, j: int) {
    exists k :: 0 <= k < |bl| && Written(size, bl[k], j)
  }

  /** The device bytes after a zero block is flushed to each block of `bl` in turn. */
  function ZeroBlocks(bytes: seq<byte>, bl: seq<int>): (r: seq<byte>)
    ensures |r| == |bytes|
  {
    if bl == [] then bytes
    else FlushBlock(ZeroBlocks(bytes, bl[..|bl| - 1]), bl[|bl| - 1], Zeros(BlockSize))
  }

  /** Zeroing one more block of the list is one more flush of a zero block. */
  lemma ZeroBlocksStep(bytes: seq<byte>, bl: seq<int>, i: int)
    requires 0 <= i < |bl|
    ensures ZeroBlocks(bytes, bl[..i + 1]) == FlushBlock(ZeroBlocks(bytes, bl[..i]), bl[i], Zeros(BlockSize))
  {
    assert bl[..i + 1][..i] == bl[..i];
  }

  /** Zeroing a list of blocks clears exactly the bytes of the listed blocks the device can
      write, and leaves every other byte as it was. */
  lemma {:induction false} ZeroBlocksEffect(bytes: seq<byte>, bl: seq<int>, j: int)
    requires 0 <= j < |bytes|
    ensures ZeroBlocks(bytes, bl)[j] == if Covered(|bytes|, bl, j) then 0 else bytes[j]
  {
    if bl != [] {
      var init, last := bl[..|bl| - 1], bl[|bl| - 1];
      ZeroBlocksEffect(bytes, init, j);
      if Written(|bytes|, last, j) {
        assert Covered(|bytes|, bl, j) by { assert Written(|bytes|, bl[|bl| - 1], j); }
      } else if Covered(|bytes|, init, j) {
        var k :| 0 <= k < |init| && Written(|bytes|, init[k], j);
        assert Written(|bytes|, bl[k], j);
      } else {
        forall k | 0 <= k < |bl| ensures !Written(|bytes|, bl[k], j) {
          if k < |init| { assert bl[k] == init[k]; }
        }
      }
    }
  }

  /** The index of the first zero byte of `blk` at or after `from`, or -1. */
  function FirstZero(blk: seq<byte>, from: nat): (r: int)
    requires from <= |blk|
    ensures r == -1 || (from <= r < |blk| && blk[r] == 0)
    ensures forall i :: from <= i < |blk| && (r == -1 || i < r) ==> blk[i] != 0
    decreases |blk| - from
  {
    if from == |blk| then -1
    else if blk[from] == 0 then from
    else FirstZero(blk, from + 1)
  }

  /** The scan of a block buffer for a free entry: the index of its first zero byte, or
      -1. */
  method ScanBlock(buffer: array<byte>) returns (index: int)
    ensures index == FirstZero(buffer[..], 0)
  {
    index := 0;
    while index < buffer.Length
      invariant 0 <= index <= buffer.Length
      invariant FirstZero(buffer[..], 0) == FirstZero(buffer[..], index)
    {
      if buffer[index] == 0 {
        return;
      }
      index := index + 1;
    }
    index := -1;
  }
}
