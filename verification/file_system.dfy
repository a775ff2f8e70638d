/** The filesystem layer (file_system.py): the superblock that records where each region of
    the device starts, the one-block cache through which every device access goes, and the
    filesystem object that formats or attaches a device and keeps its two allocation maps.
    An allocation map ("bitmap") holds one byte per block: zero means free. */
module Fs {
  import opened Byte
  import opened Error
  import opened Device
  import opened Disk
  import opened Blocks
  import LittleEndian

  const FsMagic: int := 0xA0B1C2D3
  /** The superblock record: eleven unsigned 32-bit words at the start of block 0. */
  const SuperBlockFields: nat := 11
  const SuperBlockBytes: nat := 44
  /** The block number of a cache created without one. */
  const NoBlock: int := 0xffffffff

  // ---------------------------------------------------------------------------------
  // Superblock
  // ---------------------------------------------------------------------------------

  /** The five regions of a formatted device, each a start block and a block count, in
      on-disk order: superblock, inode bitmap, data bitmap, inodes, data. */
  datatype SuperBlock = SuperBlock(
    magic: int,
    sbStart: int, sbBlocks: int,
    inodeBitmapStart: int, inodeBitmapBlocks: int,
    dataBitmapStart: int, dataBitmapBlocks: int,
    inodeStart: int, inodeBlocks: int,
    dataStart: int, dataBlocks: int)

  /** Every region starts where the one before it ends. */
  predicate Contiguous(sb: SuperBlock) {
    && sb.inodeBitmapStart == sb.sbStart + sb.sbBlocks
    && sb.dataBitmapStart == sb.inodeBitmapStart + sb.inodeBitmapBlocks
    && sb.inodeStart == sb.dataBitmapStart + sb.dataBitmapBlocks
    && sb.dataStart == sb.inodeStart + sb.inodeBlocks
  }

  /** The superblock a new filesystem starts from. */
  function DefaultSuperBlock(): SuperBlock {
    var sbStart, sbBlocks := 0, 1;
    var inodeBitmapStart, inodeBitmapBlocks := sbStart + sbBlocks, 8;
    var dataBitmapStart, dataBitmapBlocks := inodeBitmapStart + inodeBitmapBlocks, 64;
    var inodeStart, inodeBlocks := dataBitmapStart + dataBitmapBlocks, 8 * BlockSize;
    var dataStart, dataBlocks := inodeStart + inodeBlocks, 64 * BlockSize;
    SuperBlock(FsMagic, sbStart, sbBlocks, inodeBitmapStart, inodeBitmapBlocks,
               dataBitmapStart, dataBitmapBlocks, inodeStart, inodeBlocks, dataStart, dataBlocks)
  }

  /** The default regions are contiguous, start at block 0 and sit at blocks 0, 1, 9, 73
      and 73 + 32768; the default superblock carries the magic number. */
  lemma DefaultLayout()
    ensures var sb := DefaultSuperBlock();
      && Contiguous(sb) && IsValid(sb)
      && sb.sbStart == 0 && sb.inodeBitmapStart == 1 && sb.dataBitmapStart == 9
      && sb.inodeStart == 73 && sb.dataStart == 73 + 32768
      && MetadataSpaceSize(sb) == sb.dataStart * BlockSize
  {
  }

  /** `metadata_space_size`: the bytes of every region before the data region. */
  function MetadataSpaceSize(sb: SuperBlock): (r: int)
    ensures Contiguous(sb) ==> r == (sb.dataStart - sb.sbStart) * BlockSize
  {
    (sb.sbBlocks + sb.inodeBitmapBlocks + sb.dataBitmapBlocks + sb.inodeBlocks) * BlockSize
  }

  /** `adjust_data_space_size`: the data region becomes the whole blocks that fit in `size`
      bytes (rounded down, also for a negative size); nothing else changes. */
  function AdjustDataSpaceSize(sb: SuperBlock, size: int): (r: SuperBlock)
    ensures r == sb.(dataBlocks := r.dataBlocks)
    ensures r.dataBlocks * BlockSize <= size < (r.dataBlocks + 1) * BlockSize
  {
    sb.(dataBlocks := size / BlockSize)
  }

  /** `is_valid`: the magic number is present. */
  predicate IsValid(sb: SuperBlock) {
    sb.magic == FsMagic
  }

  /** The fields in record order. */
  function Fields(sb: SuperBlock): (ws: seq<int>)
    ensures |ws| == SuperBlockFields
  {
    [sb.magic, sb.sbStart, sb.sbBlocks, sb.inodeBitmapStart, sb.inodeBitmapBlocks,
     sb.dataBitmapStart, sb.dataBitmapBlocks, sb.inodeStart, sb.inodeBlocks,
     sb.dataStart, sb.dataBlocks]
  }

  function FromFields(ws: seq<int>): (sb: SuperBlock)
    requires |ws| == SuperBlockFields
    ensures Fields(sb) == ws
  {
    SuperBlock(ws[0], ws[1], ws[2], ws[3], ws[4], ws[5], ws[6], ws[7], ws[8], ws[9], ws[10])
  }

  /** Every field fits in an unsigned 32-bit word. */
  predicate FieldsFit(sb: SuperBlock) {
    forall i :: 0 <= i < SuperBlockFields ==> LittleEndian.FitsWord(Fields(sb)[i])
  }

  /** The packing half of `flush_to_block_cache`: the 44-byte record, or the packing error
      when a field does not fit its word. */
  function Pack(sb: SuperBlock): (r: Result<seq<byte>, StorageError>)
    ensures r.Ok? <==> FieldsFit(sb)
    ensures r.Err? ==> r.error == StructRange
    ensures r.Ok? ==> |r.value| == SuperBlockBytes
  {
    if FieldsFit(sb) then Ok(LittleEndian.PackWords(Fields(sb))) else Err(StructRange)
  }

  /** `load_from_block_cache`: the superblock read from a 44-byte record. */
  function Unpack(b: seq<byte>): (sb: SuperBlock)
    requires |b| == SuperBlockBytes
    ensures FieldsFit(sb)
  {
    FromFields(LittleEndian.UnpackWords(b))
  }

  /** Loading what was flushed restores all eleven fields. */
  lemma UnpackPack(sb: SuperBlock)
    requires FieldsFit(sb)
    ensures Pack(sb).Ok? && Unpack(Pack(sb).value) == sb
  {
    LittleEndian.UnpackPack(Fields(sb));
  }

  /** Flushing what was loaded restores all 44 bytes. */
  lemma PackUnpack(b: seq<byte>)
    requires |b| == SuperBlockBytes
    ensures Pack(Unpack(b)) == Ok(b)
  {
    LittleEndian.PackUnpack(b);
  }

  /** `_init_super_block`: the filesystem size and the superblock whose data region fills
      it. A size of 0 or one above the device size becomes the device size; only a size
      inside the device that is below the metadata footprint is refused. */
  function InitSuperBlock(sb: SuperBlock, requested: int, deviceSize: int): (r: Result<(int, SuperBlock), StorageError>)
    ensures r.Err? <==> requested != 0 && requested <= deviceSize && requested < MetadataSpaceSize(sb)
    ensures r.Err? ==> r.error == DeviceNoEnoughSpace
    ensures r.Ok? && (requested == 0 || requested > deviceSize) ==> r.value.0 == deviceSize
    ensures r.Ok? && 0 < requested <= deviceSize ==> r.value.0 == requested >= MetadataSpaceSize(sb)
    ensures r.Ok? ==> r.value.1 == sb.(dataBlocks := r.value.1.dataBlocks)
    ensures r.Ok? ==> MetadataSpaceSize(sb) + r.value.1.dataBlocks * BlockSize <= r.value.0
                        < MetadataSpaceSize(sb) + (r.value.1.dataBlocks + 1) * BlockSize
  {
    var size :=
      if requested == 0 then deviceSize
      else if requested > deviceSize then deviceSize
      else requested;
    if requested != 0 && requested <= deviceSize && requested < MetadataSpaceSize(sb) then
      Err(DeviceNoEnoughSpace)
    else
      Ok((size, AdjustDataSpaceSize(sb, size - MetadataSpaceSize(sb))))
  }

  /** A device smaller than the default metadata passes the size check when no size is
      requested, and the superblock it yields has a negative data region, which then cannot
      be packed: formatting fails with the packing error rather than the no-space error. */
  lemma SmallDeviceSkipsSpaceCheck(deviceSize: int)
    requires 0 <= deviceSize < MetadataSpaceSize(DefaultSuperBlock())
    ensures InitSuperBlock(DefaultSuperBlock(), 0, deviceSize).Ok?
    ensures var sb := InitSuperBlock(DefaultSuperBlock(), 0, deviceSize).value.1;
      sb.dataBlocks < 0 && Pack(sb) == Err(StructRange)
  {
    var sb := InitSuperBlock(DefaultSuperBlock(), 0, deviceSize).value.1;
    assert !LittleEndian.FitsWord(Fields(sb)[10]);
  }

  /** The block-0 image that `flush_super_block` writes: the record, then zeros. */
  function SuperBlockImage(sb: SuperBlock): (r: seq<byte>)
    requires FieldsFit(sb)
    ensures |r| == BlockSize && r[..SuperBlockBytes] == Pack(sb).value
  {
    Pack(sb).value + Zeros(BlockSize - SuperBlockBytes)
  }

  /** Flushing the superblock and loading it back restores it when block 0 is readable; when
      it is not, the flush leaves the device as it was. */
  lemma {:induction false} FlushThenLoad(bytes: seq<byte>, sb: SuperBlock)
    requires FieldsFit(sb)
    ensures var after := FlushBlock(bytes, 0, SuperBlockImage(sb));
      && (Readable(|bytes|, 0) ==> Unpack(after[..SuperBlockBytes]) == sb)
      && (!Readable(|bytes|, 0) ==> after == bytes)
  {
    var after := FlushBlock(bytes, 0, SuperBlockImage(sb));
    if Readable(|bytes|, 0) {
      assert after[..SuperBlockBytes] == Pack(sb).value by {
        forall j | 0 <= j < SuperBlockBytes
          ensures after[j] == SuperBlockImage(sb)[j]
        {
          assert Written(|bytes|, 0, j);
        }
      }
      UnpackPack(sb);
    }
  }

  // ---------------------------------------------------------------------------------
  // Block cache
  // ---------------------------------------------------------------------------------

  /** `BlockCache`: one block number and a block-sized buffer; `buffer` is null once the
      cache has been discarded. */
  class BlockCache {
    var block: int
    var buffer: array?<byte>

    ghost predicate Live()
      reads this
    {
      buffer != null && buffer.Length == BlockSize
    }

    constructor (block: int)
      ensures this.block == block && Live() && fresh(buffer)
      ensures buffer[..] == Zeros(BlockSize)
    {
      this.block := block;
      buffer := new byte[BlockSize](i => 0);
    }

    /** `discard_cache`: drops the buffer. A second discard, or any use after it, fails in
        the source, so the buffer must still be there. */
    method DiscardCache()
      requires buffer != null
      modifies this`buffer
      ensures buffer == null
    {
      buffer := null;
    }

    /** `zero_cache`: a fresh buffer of zeros. */
    method ZeroCache()
      requires buffer != null
      modifies this`buffer
      ensures Live() && fresh(buffer)
      ensures buffer[..] == Zeros(BlockSize)
    {
      DiscardCache();
      buffer := new byte[BlockSize](i => 0);
    }

    /** `load_from_device`: reads this block whole into a fresh buffer; a block that fails
        the range check is a device access error and keeps the old buffer. */
    method LoadFromDevice(device: FileDisk) returns (out: Outcome<StorageError>)
      requires buffer != null && device.Valid()
      modifies this`buffer, device`cachedSize
      ensures device.Valid()
      ensures out.Pass? <==> Readable(device.file.Length, block)
      ensures out.Fail? ==> out.error == DeviceAccess(ErrInvalidArgument) && buffer == old(buffer)
      ensures out.Pass? ==> Live() && fresh(buffer) && buffer[..] == BlockAt(device.file[..], block)
    {
      var code, data := device.Read(block * BlockSize, BlockSize);
      if !IsSuccess(code) {
        return Fail(DeviceAccess(code));
      }
      DiscardCache();
      var d := data.value;
      buffer := new byte[BlockSize](i requires 0 <= i < BlockSize => d[i]);
      out := Pass;
    }

    /** `flush_to_device`: writes the buffer to this block. The file disk reports success
        for every present buffer, so the flush never fails; a block that fails the range
        check is left as it was. */
    method FlushToDevice(device: FileDisk) returns (out: Outcome<StorageError>)
      requires Live() && device.Valid() && buffer != device.file
      modifies device`cachedSize, device.file
      ensures device.Valid() && out == Pass
      ensures device.file[..] == FlushBlock(old(device.file[..]), block, buffer[..])
    {
      var code := device.Write(Some(buffer[..]), block * BlockSize);
      out := if IsSuccess(code) then Pass else Fail(DeviceAccess(code));
    }
  }

  /** The packing half of `flush_to_block_cache` followed by the store into the buffer:
      bytes 0..43 become the record and no other byte changes; a field that does not fit
      fails before the buffer is touched. */
  method FlushToBlockCache(sb: SuperBlock, bc: BlockCache) returns (out: Outcome<StorageError>)
    requires bc.Live()
    modifies bc.buffer
    ensures !FieldsFit(sb) ==> out == Fail(StructRange) && bc.buffer[..] == old(bc.buffer[..])
    ensures FieldsFit(sb) ==> out == Pass && bc.buffer[..] == Pack(sb).value + old(bc.buffer[SuperBlockBytes..])
  {
    var packed := Pack(sb);
    if packed.Err? {
      return Fail(packed.error);
    }
    var b := packed.value;
    forall i | 0 <= i < SuperBlockBytes {
      bc.buffer[i] := b[i];
    }
    out := Pass;
  }

  // ---------------------------------------------------------------------------------
  // Free-block search
  // ---------------------------------------------------------------------------------

  /** What `_find_free_block(start, end)` returns once it has reached block `b`: the
      first zero byte of blocks `b`..`end - 1`, counted in bytes from the start of block
      `start`; -1 when there is none; a device access error at the first block that cannot
      be read before a zero byte is found. */
  function FindFree(bytes: seq<byte>, start: int, b: int, end: int): Result<int, StorageError>
    decreases end - b
  {
    if b >= end then Ok(-1)
    else if !Readable(|bytes|, b) then Err(DeviceAccess(ErrInvalidArgument))
    else
      var k := FirstZero(BlockAt(bytes, b), 0);
      if k != -1 then Ok((b - start) * BlockSize + k) else FindFree(bytes, start, b + 1, end)
  }

  /** Every byte in `[lo, hi)` is on the device and nonzero. */
  ghost predicate NonZero(bytes: seq<byte>, lo: int, hi: int) {
    forall j :: lo <= j < hi ==> 0 <= j < |bytes| && bytes[j] != 0
  }

  /** Every block in `[b, e)` passes the range check. */
  predicate AllReadable(size: int, b: int, e: int) {
    b >= e || (0 <= b && e * BlockSize < size)
  }

  /** The search is first fit in scan order: a result other than -1 is the offset of a zero
      byte with no zero byte before it in the scanned blocks; -1 is returned exactly when
      every scanned block is readable and holds no zero byte; any other outcome is a device
      access error. */
  lemma {:induction false} FindFreeFirstFit(bytes: seq<byte>, start: int, b: int, end: int)
    requires start <= b
    ensures var r := FindFree(bytes, start, b, end);
      && (r.Err? ==> r.error == DeviceAccess(ErrInvalidArgument))
      && (r.Ok? && r.value != -1 ==>
            && (b - start) * BlockSize <= r.value < (end - start) * BlockSize
            && 0 <= start * BlockSize + r.value < |bytes|
            && bytes[start * BlockSize + r.value] == 0
            && NonZero(bytes, b * BlockSize, start * BlockSize + r.value))
      && (r == Ok(-1) <==> AllReadable(|bytes|, b, end) && NonZero(bytes, b * BlockSize, end * BlockSize))
    decreases end - b
  {
    if b >= end {
    } else if !Readable(|bytes|, b) {
    } else {
      var blk := BlockAt(bytes, b);
      var k := FirstZero(blk, 0);
      if k != -1 {
        assert bytes[b * BlockSize + k] == 0;
        assert !NonZero(bytes, b * BlockSize, end * BlockSize) by {
          assert b * BlockSize <= b * BlockSize + k < end * BlockSize;
        }
        forall j | b * BlockSize <= j < b * BlockSize + k
          ensures 0 <= j < |bytes| && bytes[j] != 0
        {
          assert blk[j - b * BlockSize] != 0;
        }
      } else {
        FindFreeFirstFit(bytes, start, b + 1, end);
        forall j | b * BlockSize <= j < (b + 1) * BlockSize
          ensures 0 <= j < |bytes| && bytes[j] != 0
        {
          assert blk[j - b * BlockSize] != 0;
        }
        assert AllReadable(|bytes|, b, end) <==> AllReadable(|bytes|, b + 1, end);
      }
    }
  }

  /** Marking the byte the search found as used moves the next search strictly past it. */
  lemma {:induction false} MarkedNotFoundAgain(bytes: seq<byte>, start: int, end: int, v: byte)
    requires FindFree(bytes, start, start, end).Ok?
    requires FindFree(bytes, start, start, end).value != -1
    requires v != 0
    ensures var k := FindFree(bytes, start, start, end).value;
      && 0 <= start * BlockSize + k < |bytes|
      && var r := FindFree(bytes[start * BlockSize + k := v], start, start, end);
         r.Ok? && r.value != -1 ==> r.value > k
  {
    var k := FindFree(bytes, start, start, end).value;
    FindFreeFirstFit(bytes, start, start, end);
    var marked := bytes[start * BlockSize + k := v];
    FindFreeFirstFit(marked, start, start, end);
  }

  /** A zero byte at `p` in a readable block stops the search at `p` or earlier: the blocks
      from `b` up to the one holding `p` are readable too, so none of them raises. */
  lemma {:induction false} FindFreeReaches(bytes: seq<byte>, start: int, b: int, end: int, p: int)
    requires 0 <= start <= b && b * BlockSize <= p < end * BlockSize
    requires Readable(|bytes|, p / BlockSize) && bytes[p] == 0
    ensures var r := FindFree(bytes, start, b, end);
      r.Ok? && r.value != -1 && start * BlockSize + r.value <= p
    decreases end - b
  {
    assert Readable(|bytes|, b);
    var blk := BlockAt(bytes, b);
    var k := FirstZero(blk, 0);
    if p < (b + 1) * BlockSize {
      assert blk[p - b * BlockSize] == 0;
    } else if k == -1 {
      FindFreeReaches(bytes, start, b + 1, end, p);
    }
  }

  // ---------------------------------------------------------------------------------
  // Bitmap positions
  // ---------------------------------------------------------------------------------

  /** The bitmap entry of a managed block: the bitmap block and the index in it. Inode
      blocks use the inode bitmap, every block from the data region on the data bitmap. */
  function BitmapPlace(sb: SuperBlock, block: int): (p: (int, int))
    requires block >= sb.inodeStart
    ensures 0 <= p.1 < BlockSize
  {
    var (rel, bitmapStart) :=
      if block < sb.dataStart then (block - sb.inodeStart, sb.inodeBitmapStart)
      else (block - sb.dataStart, sb.dataBitmapStart);
    (bitmapStart + rel / BlockSize, rel % BlockSize)
  }

  /** The device byte that holds a managed block's bitmap entry: the block's offset in its
      region, counted in bytes from the start of that region's bitmap. */
  function BitmapPos(sb: SuperBlock, block: int): (pos: int)
    requires block >= sb.inodeStart
    ensures block < sb.dataStart ==> pos == sb.inodeBitmapStart * BlockSize + (block - sb.inodeStart)
    ensures block >= sb.dataStart ==> pos == sb.dataBitmapStart * BlockSize + (block - sb.dataStart)
  {
    BitmapPlace(sb, block).0 * BlockSize + BitmapPlace(sb, block).1
  }

  /** The block numbers `clear_bitmap_space` zeroes: the inode bitmap, then the data
      bitmap. */
  function BitmapBlocks(sb: SuperBlock): (bl: seq<int>)
    ensures forall b :: b in bl <==>
      (sb.inodeBitmapStart <= b < sb.inodeBitmapStart + sb.inodeBitmapBlocks) ||
      (sb.dataBitmapStart <= b < sb.dataBitmapStart + sb.dataBitmapBlocks)
  {
    Range(sb.inodeBitmapStart, sb.inodeBitmapStart + sb.inodeBitmapBlocks) +
    Range(sb.dataBitmapStart, sb.dataBitmapStart + sb.dataBitmapBlocks)
  }

  /** A search result turned into a block number of a region with `count` blocks starting
      at `regionStart`: an offset past the region's end is no block at all. */
  function InRegion(found: Result<int, StorageError>, count: int, regionStart: int): Result<int, StorageError> {
    match found
    case Err(e) => Err(e)
    case Ok(k) => Ok(if k != -1 && k < count then k + regionStart else -1)
  }

  /** What `find_free_inode_block` returns on a device holding `bytes`. */
  function FreeInodeBlock(bytes: seq<byte>, sb: SuperBlock): Result<int, StorageError> {
    InRegion(FindFree(bytes, sb.inodeBitmapStart, sb.inodeBitmapStart, sb.inodeBitmapStart + sb.inodeBitmapBlocks),
             sb.inodeBlocks, sb.inodeStart)
  }

  /** What `find_free_data_block` returns on a device holding `bytes`. */
  function FreeDataBlock(bytes: seq<byte>, sb: SuperBlock): Result<int, StorageError> {
    InRegion(FindFree(bytes, sb.dataBitmapStart, sb.dataBitmapStart, sb.dataBitmapStart + sb.dataBitmapBlocks),
             sb.dataBlocks, sb.dataStart)
  }

  /** The regions are laid out one after the other from a non-negative block, with no
      negative sizes. */
  predicate WellFormed(sb: SuperBlock) {
    && Contiguous(sb) && sb.sbStart >= 0 && sb.sbBlocks >= 0
    && sb.inodeBitmapBlocks >= 0 && sb.dataBitmapBlocks >= 0
    && sb.inodeBlocks >= 0 && sb.dataBlocks >= 0
  }

  /** The inode block the allocator returns is free in the inode bitmap, and every inode
      block before it is in use; when it returns -1, every inode block the bitmap can
      describe is in use. */
  lemma {:induction false} FreeInodeBlockIsFirstFree(bytes: seq<byte>, sb: SuperBlock)
    requires WellFormed(sb)
    ensures var r := FreeInodeBlock(bytes, sb);
      && (r.Ok? && r.value != -1 ==>
            && sb.inodeStart <= r.value < sb.dataStart
            && 0 <= BitmapPos(sb, r.value) < |bytes| && bytes[BitmapPos(sb, r.value)] == 0
            && forall x :: sb.inodeStart <= x < r.value ==>
                 0 <= BitmapPos(sb, x) < |bytes| && bytes[BitmapPos(sb, x)] != 0)
      && (r == Ok(-1) ==>
            forall x :: sb.inodeStart <= x < sb.dataStart && x - sb.inodeStart < sb.inodeBitmapBlocks * BlockSize ==>
              0 <= BitmapPos(sb, x) < |bytes| && bytes[BitmapPos(sb, x)] != 0)
  {
    var s, e := sb.inodeBitmapStart, sb.inodeBitmapStart + sb.inodeBitmapBlocks;
    FindFreeFirstFit(bytes, s, s, e);
    var found := FindFree(bytes, s, s, e);
    if FreeInodeBlock(bytes, sb) == Ok(-1) {
      forall x | sb.inodeStart <= x < sb.dataStart && x - sb.inodeStart < sb.inodeBitmapBlocks * BlockSize
        ensures 0 <= BitmapPos(sb, x) < |bytes| && bytes[BitmapPos(sb, x)] != 0
      {
        assert s * BlockSize <= BitmapPos(sb, x) < s * BlockSize + sb.inodeBitmapBlocks * BlockSize == e * BlockSize;
        if found.value != -1 {
          assert BitmapPos(sb, x) < s * BlockSize + found.value;
        }
      }
    }
  }

  /** The data block the allocator returns is free in the data bitmap, and every data block
      before it is in use; when it returns -1, every data block the bitmap can describe is
      in use. */
  lemma {:induction false} FreeDataBlockIsFirstFree(bytes: seq<byte>, sb: SuperBlock)
    requires WellFormed(sb)
    ensures var r := FreeDataBlock(bytes, sb);
      && (r.Ok? && r.value != -1 ==>
            && sb.dataStart <= r.value < sb.dataStart + sb.dataBlocks
            && 0 <= BitmapPos(sb, r.value) < |bytes| && bytes[BitmapPos(sb, r.value)] == 0
            && forall x :: sb.dataStart <= x < r.value ==>
                 0 <= BitmapPos(sb, x) < |bytes| && bytes[BitmapPos(sb, x)] != 0)
      && (r == Ok(-1) ==>
            forall x :: sb.dataStart <= x < sb.dataStart + sb.dataBlocks && x - sb.dataStart < sb.dataBitmapBlocks * BlockSize ==>
              0 <= BitmapPos(sb, x) < |bytes| && bytes[BitmapPos(sb, x)] != 0)
  {
    var s, e := sb.dataBitmapStart, sb.dataBitmapStart + sb.dataBitmapBlocks;
    FindFreeFirstFit(bytes, s, s, e);
    var found := FindFree(bytes, s, s, e);
    if FreeDataBlock(bytes, sb) == Ok(-1) {
      forall x | sb.dataStart <= x < sb.dataStart + sb.dataBlocks && x - sb.dataStart < sb.dataBitmapBlocks * BlockSize
        ensures 0 <= BitmapPos(sb, x) < |bytes| && bytes[BitmapPos(sb, x)] != 0
      {
        assert s * BlockSize <= BitmapPos(sb, x) < s * BlockSize + sb.dataBitmapBlocks * BlockSize == e * BlockSize;
        if found.value != -1 {
          assert BitmapPos(sb, x) < s * BlockSize + found.value;
        }
      }
    }
  }

  /** Writing back a loaded block with one byte replaced changes exactly that byte. */
  lemma {:induction false} FlushPatchedBlock(bytes: seq<byte>, b: int, i: int, v: byte)
    requires Readable(|bytes|, b) && 0 <= i < BlockSize
    ensures 0 <= b * BlockSize + i < |bytes|
    ensures FlushBlock(bytes, b, BlockAt(bytes, b)[i := v]) == bytes[b * BlockSize + i := v]
  {
    var after := FlushBlock(bytes, b, BlockAt(bytes, b)[i := v]);
    forall j | 0 <= j < |bytes|
      ensures after[j] == bytes[b * BlockSize + i := v][j]
    {
      if Written(|bytes|, b, j) {
        assert BlockAt(bytes, b)[j - b * BlockSize] == bytes[j];
      }
    }
  }

  // ---------------------------------------------------------------------------------
  // Formatting and attaching
  // ---------------------------------------------------------------------------------

  /** The size and superblock `_init_super_block` computes from the default superblock. */
  function Init(requested: int, deviceSize: int): Result<(int, SuperBlock), StorageError> {
    InitSuperBlock(DefaultSuperBlock(), requested, deviceSize)
  }

  /** The device bytes after a new filesystem with superblock `sb` is written: the
      superblock flushed to block 0, then both bitmaps zeroed. */
  function Formatted(bytes: seq<byte>, sb: SuperBlock): (r: seq<byte>)
    requires FieldsFit(sb)
    ensures |r| == |bytes|
  {
    ZeroBlocks(FlushBlock(bytes, 0, SuperBlockImage(sb)), BitmapBlocks(sb))
  }

  /** A device an existing filesystem can be attached to: block 0 is readable and its
      record carries the magic number. */
  predicate Attachable(bytes: seq<byte>) {
    Readable(|bytes|, 0) && IsValid(Unpack(bytes[..SuperBlockBytes]))
  }

  /** A device just formatted can be attached, and attaching it finds the very superblock
      the format wrote. */
  lemma {:induction false} FormatThenAttach(bytes: seq<byte>, requested: int)
    requires Init(requested, |bytes|).Ok? && FieldsFit(Init(requested, |bytes|).value.1)
    requires Readable(|bytes|, 0)
    ensures var sb := Init(requested, |bytes|).value.1;
      Attachable(Formatted(bytes, sb)) && Unpack(Formatted(bytes, sb)[..SuperBlockBytes]) == sb
  {
    var sb := Init(requested, |bytes|).value.1;
    var flushed := FlushBlock(bytes, 0, SuperBlockImage(sb));
    var bl := BitmapBlocks(sb);
    FlushThenLoad(bytes, sb);
    forall j | 0 <= j < SuperBlockBytes
      ensures Formatted(bytes, sb)[j] == flushed[j]
    {
      ZeroBlocksEffect(flushed, bl, j);
    }
    assert Formatted(bytes, sb)[..SuperBlockBytes] == flushed[..SuperBlockBytes];
  }

  /** On freshly zeroed bitmaps the first free inode block is the first block of the inode
      region and the first free data block the first block of the data region, provided
      the first block of each bitmap can be read. */
  lemma {:induction false} ClearedMapsAllFree(bytes: seq<byte>, sb: SuperBlock)
    requires WellFormed(sb)
    ensures var z := ZeroBlocks(bytes, BitmapBlocks(sb));
      && (sb.inodeBitmapBlocks > 0 && Readable(|bytes|, sb.inodeBitmapStart) ==>
            FreeInodeBlock(z, sb) == Ok(if sb.inodeBlocks > 0 then sb.inodeStart else -1))
      && (sb.dataBitmapBlocks > 0 && Readable(|bytes|, sb.dataBitmapStart) ==>
            FreeDataBlock(z, sb) == Ok(if sb.dataBlocks > 0 then sb.dataStart else -1))
  {
    var bl := BitmapBlocks(sb);
    var inodeMap := Range(sb.inodeBitmapStart, sb.inodeBitmapStart + sb.inodeBitmapBlocks);
    if sb.inodeBitmapBlocks > 0 && Readable(|bytes|, sb.inodeBitmapStart) {
      assert bl[0] == inodeMap[0] == sb.inodeBitmapStart;
      FirstBlockZeroed(bytes, bl, 0, sb.inodeBitmapStart + sb.inodeBitmapBlocks);
    }
    if sb.dataBitmapBlocks > 0 && Readable(|bytes|, sb.dataBitmapStart) {
      assert bl[|inodeMap|] == sb.dataBitmapStart;
      FirstBlockZeroed(bytes, bl, |inodeMap|, sb.dataBitmapStart + sb.dataBitmapBlocks);
    }
  }

  /** A zeroed, readable block is found free at its first byte. */
  lemma {:induction false} FirstBlockZeroed(bytes: seq<byte>, bl: seq<int>, k: int, e: int)
    requires 0 <= k < |bl| && Readable(|bytes|, bl[k]) && e > bl[k]
    ensures FindFree(ZeroBlocks(bytes, bl), bl[k], bl[k], e) == Ok(0)
  {
    var z := ZeroBlocks(bytes, bl);
    var b := bl[k];
    ZeroBlocksEffect(bytes, bl, b * BlockSize);
    assert Written(|bytes|, bl[k], b * BlockSize);
    assert BlockAt(z, b)[0] == 0;
  }

  /** Marking the inode block the allocator returned as used makes the next allocation
      return a later inode block, or none. */
  lemma {:induction false} InodeAllocationAdvances(bytes: seq<byte>, sb: SuperBlock)
    requires WellFormed(sb)
    requires FreeInodeBlock(bytes, sb).Ok? && FreeInodeBlock(bytes, sb).value != -1
    ensures var x := FreeInodeBlock(bytes, sb).value;
      && sb.inodeStart <= x
      && 0 <= BitmapPos(sb, x) < |bytes|
      && var r := FreeInodeBlock(bytes[BitmapPos(sb, x) := 1], sb);
         r.Ok? && r.value != -1 ==> r.value > x
  {
    var s, e := sb.inodeBitmapStart, sb.inodeBitmapStart + sb.inodeBitmapBlocks;
    FreeInodeBlockIsFirstFree(bytes, sb);
    MarkedNotFoundAgain(bytes, s, e, 1);
  }

  /** Marking the data block the allocator returned as used makes the next allocation
      return a later data block, or none. */
  lemma {:induction false} DataAllocationAdvances(bytes: seq<byte>, sb: SuperBlock)
    requires WellFormed(sb)
    requires FreeDataBlock(bytes, sb).Ok? && FreeDataBlock(bytes, sb).value != -1
    ensures var x := FreeDataBlock(bytes, sb).value;
      && sb.dataStart <= x
      && 0 <= BitmapPos(sb, x) < |bytes|
      && var r := FreeDataBlock(bytes[BitmapPos(sb, x) := 1], sb);
         r.Ok? && r.value != -1 ==> r.value > x
  {
    var s, e := sb.dataBitmapStart, sb.dataBitmapStart + sb.dataBitmapBlocks;
    FreeDataBlockIsFirstFree(bytes, sb);
    MarkedNotFoundAgain(bytes, s, e, 1);
  }

  /** Marking an inode block free makes the allocator return it again, or an earlier free
      inode block: it is returned itself exactly when every inode block before it is in
      use. The bitmap block holding its entry must be readable; the ones before it then
      are too, so the search cannot fail. */
  lemma {:induction false} FreedInodeBlockFoundAgain(bytes: seq<byte>, sb: SuperBlock, y: int)
    requires WellFormed(sb)
    requires sb.inodeStart <= y < sb.dataStart
    requires y - sb.inodeStart < sb.inodeBitmapBlocks * BlockSize
    requires Readable(|bytes|, BitmapPlace(sb, y).0)
    ensures 0 <= BitmapPos(sb, y) < |bytes|
    ensures var r := FreeInodeBlock(bytes[BitmapPos(sb, y) := 0], sb);
      && r.Ok? && sb.inodeStart <= r.value <= y
      && (r.value == y <==>
            forall x :: sb.inodeStart <= x < y ==> 0 <= BitmapPos(sb, x) < |bytes| && bytes[BitmapPos(sb, x)] != 0)
  {
    var s, e := sb.inodeBitmapStart, sb.inodeBitmapStart + sb.inodeBitmapBlocks;
    var p := BitmapPos(sb, y);
    var freed := bytes[p := 0];
    assert p / BlockSize == BitmapPlace(sb, y).0;
    FindFreeReaches(freed, s, s, e, p);
    FreeInodeBlockIsFirstFree(freed, sb);
    var z := FreeInodeBlock(freed, sb).value;
    if forall x :: sb.inodeStart <= x < y ==> 0 <= BitmapPos(sb, x) < |bytes| && bytes[BitmapPos(sb, x)] != 0 {
      if z < y {
        assert freed[BitmapPos(sb, z)] == bytes[BitmapPos(sb, z)];
      }
    } else {
      forall x | sb.inodeStart <= x < z
        ensures 0 <= BitmapPos(sb, x) < |bytes| && bytes[BitmapPos(sb, x)] != 0
      {
        assert freed[BitmapPos(sb, x)] == bytes[BitmapPos(sb, x)];
      }
    }
  }

  /** Marking a data block free makes the allocator return it again, or an earlier free
      data block: it is returned itself exactly when every data block before it is in use.
      The bitmap block holding its entry must be readable; the ones before it then are
      too, so the search cannot fail. */
  lemma {:induction false} FreedDataBlockFoundAgain(bytes: seq<byte>, sb: SuperBlock, y: int)
    requires WellFormed(sb)
    requires sb.dataStart <= y < sb.dataStart + sb.dataBlocks
    requires y - sb.dataStart < sb.dataBitmapBlocks * BlockSize
    requires Readable(|bytes|, BitmapPlace(sb, y).0)
    ensures 0 <= BitmapPos(sb, y) < |bytes|
    ensures var r := FreeDataBlock(bytes[BitmapPos(sb, y) := 0], sb);
      && r.Ok? && sb.dataStart <= r.value <= y
      && (r.value == y <==>
            forall x :: sb.dataStart <= x < y ==> 0 <= BitmapPos(sb, x) < |bytes| && bytes[BitmapPos(sb, x)] != 0)
  {
    var s, e := sb.dataBitmapStart, sb.dataBitmapStart + sb.dataBitmapBlocks;
    var p := BitmapPos(sb, y);
    var freed := bytes[p := 0];
    assert p / BlockSize == BitmapPlace(sb, y).0;
    FindFreeReaches(freed, s, s, e, p);
    FreeDataBlockIsFirstFree(freed, sb);
    var z := FreeDataBlock(freed, sb).value;
    if forall x :: sb.dataStart <= x < y ==> 0 <= BitmapPos(sb, x) < |bytes| && bytes[BitmapPos(sb, x)] != 0 {
      if z < y {
        assert freed[BitmapPos(sb, z)] == bytes[BitmapPos(sb, z)];
      }
    } else {
      forall x | sb.dataStart <= x < z
        ensures 0 <= BitmapPos(sb, x) < |bytes| && bytes[BitmapPos(sb, x)] != 0
      {
        assert freed[BitmapPos(sb, x)] == bytes[BitmapPos(sb, x)];
      }
    }
  }

  // ---------------------------------------------------------------------------------
  // The filesystem object
  // ---------------------------------------------------------------------------------

  /** `FileSystem`: the device it lives on, its size in bytes and its superblock. */
  class FileSystem {
    const device: FileDisk
    var size: int
    var sb: SuperBlock

    constructor (device: FileDisk, size: int, sb: SuperBlock)
      ensures this.device == device && this.size == size && this.sb == sb
    {
      this.device := device;
      this.size := size;
      this.sb := sb;
    }

    /** `__init__`: computes the size and superblock; a new filesystem then flushes the
        superblock and zeroes both bitmaps, while an existing one loads the superblock from
        block 0 and is refused unless it carries the magic number. */
    static method Create(device: FileDisk, size: int, isNew: bool) returns (r: Result<FileSystem, StorageError>)
      requires device.Valid()
      modifies device`cachedSize, device.file
      ensures device.Valid()
      ensures Init(size, device.file.Length).Err? ==>
                r == Err(DeviceNoEnoughSpace) && device.file[..] == old(device.file[..])
      ensures r.Ok? ==> fresh(r.value) && r.value.device == device
      ensures r.Ok? ==> Init(size, device.file.Length).Ok? && r.value.size == Init(size, device.file.Length).value.0
      ensures Init(size, device.file.Length).Ok? && isNew ==>
                var sb := Init(size, device.file.Length).value.1;
                && (FieldsFit(sb) ==> r.Ok? && r.value.sb == sb && device.file[..] == Formatted(old(device.file[..]), sb))
                && (!FieldsFit(sb) ==> r == Err(StructRange) && device.file[..] == old(device.file[..]))
      ensures Init(size, device.file.Length).Ok? && !isNew ==>
                && device.file[..] == old(device.file[..])
                && (r.Ok? <==> Attachable(device.file[..]))
                && (!Readable(device.file.Length, 0) ==> r == Err(DeviceAccess(ErrInvalidArgument)))
                && (Readable(device.file.Length, 0) && !Attachable(device.file[..]) ==> r == Err(BadSuperBlock))
                && (r.Ok? ==> r.value.sb == Unpack(device.file[..SuperBlockBytes]))
    {
      var deviceSize := device.Size();
      var init := InitSuperBlock(DefaultSuperBlock(), size, deviceSize);
      if init.Err? {
        return Err(init.error);
      }
      var fs := new FileSystem(device, init.value.0, init.value.1);
      if isNew {
        var out := fs.FlushSuperBlock();
        if out.Fail? {
          return Err(out.error);
        }
        fs.ClearBitmapSpace();
      } else {
        var out := fs.LoadSuperBlock();
        if out.Fail? {
          return Err(out.error);
        }
        if !IsValid(fs.sb) {
          return Err(BadSuperBlock);
        }
      }
      r := Ok(fs);
    }

    /** `load_super_block`: the superblock becomes the record at the start of block 0; an
        unreadable block 0 is a device access error. */
    method LoadSuperBlock() returns (out: Outcome<StorageError>)
      requires device.Valid()
      modifies this`sb, device`cachedSize
      ensures device.Valid()
      ensures out.Pass? <==> Readable(device.file.Length, 0)
      ensures out.Fail? ==> out.error == DeviceAccess(ErrInvalidArgument) && sb == old(sb)
      ensures out.Pass? ==> sb == Unpack(device.file[..SuperBlockBytes])
    {
      var bc := new BlockCache(0);
      out := bc.LoadFromDevice(device);
      if out.Fail? {
        return;
      }
      assert bc.buffer[..SuperBlockBytes] == device.file[..SuperBlockBytes];
      sb := Unpack(bc.buffer[..SuperBlockBytes]);
      bc.DiscardCache();
    }

    /** `flush_super_block`: block 0 becomes the record followed by zeros, or the device is
        left as it was when a field does not fit its word. */
    method FlushSuperBlock() returns (out: Outcome<StorageError>)
      requires device.Valid()
      modifies device`cachedSize, device.file
      ensures device.Valid()
      ensures !FieldsFit(sb) ==> out == Fail(StructRange) && device.file[..] == old(device.file[..])
      ensures FieldsFit(sb) ==> out == Pass && device.file[..] == FlushBlock(old(device.file[..]), 0, SuperBlockImage(sb))
    {
      var bc := new BlockCache(0);
      out := FlushToBlockCache(sb, bc);
      if out.Fail? {
        return;
      }
      assert bc.buffer[..] == SuperBlockImage(sb);
      out := bc.FlushToDevice(device);
      bc.DiscardCache();
    }

    /** `_find_free_block(start, end)`: scans blocks `start`..`end - 1` in order, loading
        each, and returns the offset of the first zero byte counted from block `start`. */
    method FindFreeBlock(start: int, end: int) returns (r: Result<int, StorageError>)
      requires device.Valid()
      modifies device`cachedSize
      ensures device.Valid()
      ensures r == FindFree(device.file[..], start, start, end)
    {
      ghost var bytes := device.file[..];
      var bc := new BlockCache(NoBlock);
      var block := start;
      while block < end
        invariant start <= block || start >= end
        invariant device.Valid() && device.file[..] == bytes
        invariant bc.buffer != null && fresh(bc.buffer)
        invariant FindFree(bytes, start, start, end) ==
                  if start >= end then Ok(-1) else FindFree(bytes, start, block, end)
        decreases end - block
      {
        bc.block := block;
        var out := bc.LoadFromDevice(device);
        if out.Fail? {
          return Err(out.error);
        }
        var index := ScanBlock(bc.buffer);
        if index != -1 {
          bc.DiscardCache();
          return Ok((block - start) * BlockSize + index);
        }
        block := block + 1;
      }
      bc.DiscardCache();
      r := Ok(-1);
    }

    /** `find_free_inode_block`: the first free inode block, or -1. */
    method FindFreeInodeBlock() returns (r: Result<int, StorageError>)
      requires device.Valid()
      modifies device`cachedSize
      ensures device.Valid()
      ensures r == FreeInodeBlock(device.file[..], sb)
    {
      var start := sb.inodeBitmapStart;
      var end := start + sb.inodeBitmapBlocks;
      var found := FindFreeBlock(start, end);
      if found.Err? {
        return found;
      }
      var offset := found.value;
      if offset != -1 {
        if offset < sb.inodeBlocks {
          offset := offset + sb.inodeStart;
        } else {
          offset := -1;
        }
      }
      r := Ok(offset);
    }

    /** `find_free_data_block`: the first free data block, or -1. */
    method FindFreeDataBlock() returns (r: Result<int, StorageError>)
      requires device.Valid()
      modifies device`cachedSize
      ensures device.Valid()
      ensures r == FreeDataBlock(device.file[..], sb)
    {
      var start := sb.dataBitmapStart;
      var end := start + sb.dataBitmapBlocks;
      var found := FindFreeBlock(start, end);
      if found.Err? {
        return found;
      }
      var offset := found.value;
      if offset != -1 {
        if offset < sb.dataBlocks {
          offset := offset + sb.dataStart;
        } else {
          offset := -1;
        }
      }
      r := Ok(offset);
    }

    /** `update_bitmap(block, value)`: a block before the inode region is not managed and
        nothing changes; otherwise exactly the block's bitmap byte becomes `value`, by a
        read-modify-write of its bitmap block, which fails if that block cannot be read. */
    method UpdateBitmap(block: int, value: byte) returns (out: Outcome<StorageError>)
      requires device.Valid()
      modifies device`cachedSize, device.file
      ensures device.Valid()
      ensures block < sb.inodeStart ==> out == Pass && device.file[..] == old(device.file[..])
      ensures block >= sb.inodeStart ==> (out.Pass? <==> Readable(device.file.Length, BitmapPlace(sb, block).0))
      ensures out.Fail? ==> out.error == DeviceAccess(ErrInvalidArgument) && device.file[..] == old(device.file[..])
      ensures block >= sb.inodeStart && out.Pass? ==>
                && 0 <= BitmapPos(sb, block) < device.file.Length
                && device.file[..] == old(device.file[..])[BitmapPos(sb, block) := value]
    {
      if block < sb.inodeStart {
        return Pass;
      }
      var (bitmapBlock, index) := BitmapPlace(sb, block);
      var bc := new BlockCache(bitmapBlock);
      out := bc.LoadFromDevice(device);
      if out.Fail? {
        return;
      }
      ghost var before := device.file[..];
      FlushPatchedBlock(before, bitmapBlock, index, value);
      bc.buffer[index] := value;
      assert bc.buffer[..] == BlockAt(before, bitmapBlock)[index := value];
      out := bc.FlushToDevice(device);
      bc.DiscardCache();
    }

    /** `mark_block_used`: the block's bitmap byte becomes 1. */
    method MarkBlockUsed(block: int) returns (out: Outcome<StorageError>)
      requires device.Valid()
      modifies device`cachedSize, device.file
      ensures device.Valid()
      ensures block < sb.inodeStart ==> out == Pass && device.file[..] == old(device.file[..])
      ensures block >= sb.inodeStart ==> (out.Pass? <==> Readable(device.file.Length, BitmapPlace(sb, block).0))
      ensures out.Fail? ==> out.error == DeviceAccess(ErrInvalidArgument) && device.file[..] == old(device.file[..])
      ensures block >= sb.inodeStart && out.Pass? ==>
                0 <= BitmapPos(sb, block) < device.file.Length &&
                device.file[..] == old(device.file[..])[BitmapPos(sb, block) := 1]
    {
      out := UpdateBitmap(block, 1);
    }

    /** `mark_block_free`: the block's bitmap byte becomes 0. */
    method MarkBlockFree(block: int) returns (out: Outcome<StorageError>)
      requires device.Valid()
      modifies device`cachedSize, device.file
      ensures device.Valid()
      ensures block < sb.inodeStart ==> out == Pass && device.file[..] == old(device.file[..])
      ensures block >= sb.inodeStart ==> (out.Pass? <==> Readable(device.file.Length, BitmapPlace(sb, block).0))
      ensures out.Fail? ==> out.error == DeviceAccess(ErrInvalidArgument) && device.file[..] == old(device.file[..])
      ensures block >= sb.inodeStart && out.Pass? ==>
                0 <= BitmapPos(sb, block) < device.file.Length &&
                device.file[..] == old(device.file[..])[BitmapPos(sb, block) := 0]
    {
      out := UpdateBitmap(block, 0);
    }

    /** `clear_bitmap_space`: a zero block is flushed to every inode-bitmap block and then
        to every data-bitmap block, in order. */
    method ClearBitmapSpace()
      requires device.Valid()
      modifies device`cachedSize, device.file
      ensures device.Valid()
      ensures device.file[..] == ZeroBlocks(old(device.file[..]), BitmapBlocks(sb))
    {
      var blocks := BitmapBlocks(sb);
      var bc := new BlockCache(NoBlock);
      bc.ZeroCache();
      var i := 0;
      while i < |blocks|
        invariant 0 <= i <= |blocks|
        invariant device.Valid() && bc.Live() && fresh(bc.buffer)
        invariant bc.buffer[..] == Zeros(BlockSize)
        invariant device.file[..] == ZeroBlocks(old(device.file[..]), blocks[..i])
      {
        bc.block := blocks[i];
        var flushed := bc.FlushToDevice(device);
        ZeroBlocksStep(old(device.file[..]), blocks, i);
        i := i + 1;
      }
      assert blocks[..|blocks|] == blocks;
      bc.DiscardCache();
    }
  }

  /** `FsTool.create_fs`: a new filesystem of `size` bytes (0 for the whole device). */
  method CreateFs(device: FileDisk, size: int) returns (r: Result<FileSystem, StorageError>)
    requires device.Valid()
    modifies device`cachedSize, device.file
    ensures device.Valid()
    ensures Init(size, device.file.Length).Err? ==>
              r == Err(DeviceNoEnoughSpace) && device.file[..] == old(device.file[..])
    ensures Init(size, device.file.Length).Ok? ==>
              var sb := Init(size, device.file.Length).value.1;
              && (FieldsFit(sb) ==> r.Ok? && r.value.sb == sb && device.file[..] == Formatted(old(device.file[..]), sb))
              && (!FieldsFit(sb) ==> r == Err(StructRange) && device.file[..] == old(device.file[..]))
    ensures r.Ok? ==> fresh(r.value) && r.value.device == device
    ensures r.Ok? ==> Init(size, device.file.Length).Ok? && r.value.size == Init(size, device.file.Length).value.0
  {
    r := FileSystem.Create(device, size, true);
  }

  /** `FsTool.attach_fs`: the filesystem already on the device, spanning the whole device. */
  method AttachFs(device: FileDisk) returns (r: Result<FileSystem, StorageError>)
    requires device.Valid()
    modifies device`cachedSize, device.file
    ensures device.Valid() && device.file[..] == old(device.file[..])
    ensures r.Ok? <==> Attachable(device.file[..])
    ensures !Readable(device.file.Length, 0) ==> r == Err(DeviceAccess(ErrInvalidArgument))
    ensures Readable(device.file.Length, 0) && !Attachable(device.file[..]) ==> r == Err(BadSuperBlock)
    ensures r.Ok? ==> fresh(r.value) && r.value.device == device && r.value.size == device.file.Length
    ensures r.Ok? ==> r.value.sb == Unpack(device.file[..SuperBlockBytes])
  {
    r := FileSystem.Create(device, 0, false);
  }
}
