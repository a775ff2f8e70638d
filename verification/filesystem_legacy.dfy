/** The earlier revision of the filesystem layer (filesystem.py): a ten-field superblock
    with no magic number, a block cache bound to its device, and a free-block search that
    never reads the device. */
module LegacyFs {
  import opened Byte
  import opened Error
  import opened Device
  import opened Disk
  import opened Blocks
  import LittleEndian
  import Fs

  /** The superblock record: ten unsigned 32-bit words at the start of block 0. */
  const SuperBlockFields: nat := 10
  const SuperBlockBytes: nat := 40

  /** What the source writes for a discarded buffer: the text of `str(None)`. */
  const NoneText: seq<byte> := [78, 111, 110, 101]

  // ---------------------------------------------------------------------------------
  // Superblock
  // ---------------------------------------------------------------------------------

  datatype SuperBlock = SuperBlock(
    sbStart: int, sbBlocks: int,
    inodeBitmapStart: int, inodeBitmapBlocks: int,
    dataBitmapStart: int, dataBitmapBlocks: int,
    inodeStart: int, inodeBlocks: int,
    dataStart: int, dataBlocks: int)

  /** Every region starts where the one before it ends. */
  predicate Contiguous(sb: SuperBlock) {
    && sb.inodeBitmapStart == sb.sbStart + sb.sbBlocks
    && sb.dataBitmapStart == sb.inodeBitmapStart + sb.inodeBitmapBlocks
    && sb.inodeStart == sb.dataBitmapStart + sb.dataBitmapBlocks
    && sb.dataStart == sb.inodeStart + sb.inodeBlocks
  }

  function DefaultSuperBlock(): SuperBlock {
    var sbStart, sbBlocks := 0, 1;
    var inodeBitmapStart, inodeBitmapBlocks := sbStart + sbBlocks, 8;
    var dataBitmapStart, dataBitmapBlocks := inodeBitmapStart + inodeBitmapBlocks, 64;
    var inodeStart, inodeBlocks := dataBitmapStart + dataBitmapBlocks, 8 * 1024;
    var dataStart, dataBlocks := inodeStart + inodeBlocks, 256 * 1024;
    SuperBlock(sbStart, sbBlocks, inodeBitmapStart, inodeBitmapBlocks,
               dataBitmapStart, dataBitmapBlocks, inodeStart, inodeBlocks, dataStart, dataBlocks)
  }

  /** The default regions are contiguous from block 0, with 8 * 1024 inode blocks and
      256 * 1024 data blocks. */
  lemma DefaultLayout()
    ensures var sb := DefaultSuperBlock();
      && Contiguous(sb) && sb.sbStart == 0
      && sb.inodeBitmapStart == 1 && sb.dataBitmapStart == 9 && sb.inodeStart == 73
      && sb.dataStart == 73 + 8 * 1024 && sb.dataBlocks == 256 * 1024
      && MetadataSpaceSize(sb) == sb.dataStart * BlockSize
  {
  }

  /** `metadata_space_size`: the bytes of every region before the data region. */
  function MetadataSpaceSize(sb: SuperBlock): (r: int)
    ensures Contiguous(sb) ==> r == (sb.dataStart - sb.sbStart) * BlockSize
  {
    (sb.sbBlocks + sb.inodeBitmapBlocks + sb.dataBitmapBlocks + sb.inodeBlocks) * BlockSize
  }

  /** `adjust_data_space_size`: the data region becomes the whole blocks that fit in
      `size` bytes; nothing else changes. */
  function AdjustDataSpaceSize(sb: SuperBlock, size: int): (r: SuperBlock)
    ensures r == sb.(dataBlocks := r.dataBlocks)
    ensures r.dataBlocks * BlockSize <= size < (r.dataBlocks + 1) * BlockSize
  {
    sb.(dataBlocks := size / BlockSize)
  }

  function Fields(sb: SuperBlock): (ws: seq<int>)
    ensures |ws| == SuperBlockFields
  {
    [sb.sbStart, sb.sbBlocks, sb.inodeBitmapStart, sb.inodeBitmapBlocks,
     sb.dataBitmapStart, sb.dataBitmapBlocks, sb.inodeStart, sb.inodeBlocks,
     sb.dataStart, sb.dataBlocks]
  }

  function FromFields(ws: seq<int>): (sb: SuperBlock)
    requires |ws| == SuperBlockFields
    ensures Fields(sb) == ws
  {
    SuperBlock(ws[0], ws[1], ws[2], ws[3], ws[4], ws[5], ws[6], ws[7], ws[8], ws[9])
  }

  predicate FieldsFit(sb: SuperBlock) {
    forall i :: 0 <= i < SuperBlockFields ==> LittleEndian.FitsWord(Fields(sb)[i])
  }

  /** The packing half of `flush_to_block_cache`: the 40-byte record, or the packing error
      when a field does not fit its word. */
  function Pack(sb: SuperBlock): (r: Result<seq<byte>, StorageError>)
    ensures r.Ok? <==> FieldsFit(sb)
    ensures r.Err? ==> r.error == StructRange
    ensures r.Ok? ==> |r.value| == SuperBlockBytes
  {
    if FieldsFit(sb) then Ok(LittleEndian.PackWords(Fields(sb))) else Err(StructRange)
  }

  /** `load_from_block_cache`: the superblock read from a 40-byte record. */
  function Unpack(b: seq<byte>): (sb: SuperBlock)
    requires |b| == SuperBlockBytes
    ensures FieldsFit(sb)
  {
    FromFields(LittleEndian.UnpackWords(b))
  }

  /** Loading what was flushed restores all ten fields. */
  lemma UnpackPack(sb: SuperBlock)
    requires FieldsFit(sb)
    ensures Pack(sb).Ok? && Unpack(Pack(sb).value) == sb
  {
    LittleEndian.UnpackPack(Fields(sb));
  }

  /** Flushing what was loaded restores all 40 bytes. */
  lemma PackUnpack(b: seq<byte>)
    requires |b| == SuperBlockBytes
    ensures Pack(Unpack(b)) == Ok(b)
  {
    LittleEndian.PackUnpack(b);
  }

  /** `_init_super_block`: the size is first clamped to the device size and only then
      compared with the metadata footprint, so every size below the footprint is refused,
      and the data region is never negative. */
  function InitSuperBlock(sb: SuperBlock, requested: int, deviceSize: int): (r: Result<(int, SuperBlock), StorageError>)
    ensures r.Err? <==> requested < MetadataSpaceSize(sb) || deviceSize < MetadataSpaceSize(sb)
    ensures r.Err? ==> r.error == DeviceNoEnoughSpace
    ensures r.Ok? ==> r.value.0 <= requested && r.value.0 <= deviceSize
    ensures r.Ok? ==> r.value.0 == requested || r.value.0 == deviceSize
    ensures r.Ok? ==> r.value.1 == sb.(dataBlocks := r.value.1.dataBlocks) && r.value.1.dataBlocks >= 0
    ensures r.Ok? ==> MetadataSpaceSize(sb) + r.value.1.dataBlocks * BlockSize <= r.value.0
                        < MetadataSpaceSize(sb) + (r.value.1.dataBlocks + 1) * BlockSize
  {
    var size := if requested > deviceSize then deviceSize else requested;
    if size < MetadataSpaceSize(sb) then Err(DeviceNoEnoughSpace)
    else Ok((size, AdjustDataSpaceSize(sb, size - MetadataSpaceSize(sb))))
  }

  /** With the default superblock a size of 0 is always refused: this revision has no
      "whole device" default. */
  lemma ZeroSizeRefused(deviceSize: int)
    ensures InitSuperBlock(DefaultSuperBlock(), 0, deviceSize) == Err(DeviceNoEnoughSpace)
  {
  }

  // ---------------------------------------------------------------------------------
  // Block cache
  // ---------------------------------------------------------------------------------

  /** `BlockCache`: bound to one device and one block for its whole life; `buffer` is null
      once discarded. */
  class BlockCache {
    const device: FileDisk
    const lbn: int
    var buffer: array?<byte>

    ghost predicate Valid()
      reads this
    {
      buffer == null || buffer.Length == BlockSize
    }

    constructor (device: FileDisk, lbn: int)
      ensures this.device == device && this.lbn == lbn
      ensures Valid() && buffer != null && fresh(buffer) && buffer[..] == Zeros(BlockSize)
    {
      this.device := device;
      this.lbn := lbn;
      buffer := new byte[BlockSize](i => 0);
    }

    /** `discard`: drops the buffer; discarding twice is harmless. */
    method Discard()
      modifies this`buffer
      ensures buffer == null
    {
      if buffer != null {
        buffer := null;
      }
    }

    /** `load_from_device`: reads the block whole into a fresh buffer; a block that fails
        the range check is a device access error and keeps the old buffer. */
    method LoadFromDevice() returns (out: Outcome<StorageError>)
      requires device.Valid()
      modifies this`buffer, device`cachedSize
      ensures device.Valid()
      ensures out.Pass? <==> Readable(device.file.Length, lbn)
      ensures out.Fail? ==> out.error == DeviceAccess(ErrInvalidArgument) && buffer == old(buffer)
      ensures out.Pass? ==> Valid() && buffer != null && fresh(buffer) && buffer[..] == BlockAt(device.file[..], lbn)
    {
      var code, data := device.Read(lbn * BlockSize, BlockSize);
      if !IsSuccess(code) {
        return Fail(DeviceAccess(code));
      }
      Discard();
      var d := data.value;
      buffer := new byte[BlockSize](i requires 0 <= i < BlockSize => d[i]);
      out := Pass;
    }

    /** `flush_to_device`: writes the buffer to the block. A discarded buffer is written as
        the four bytes of its text `None`. The file disk reports success either way. */
    method FlushToDevice() returns (out: Outcome<StorageError>)
      requires Valid() && device.Valid() && buffer != device.file
      modifies device`cachedSize, device.file
      ensures device.Valid() && out == Pass
      ensures buffer != null ==> device.file[..] == FlushBlock(old(device.file[..]), lbn, buffer[..])
      ensures buffer == null && IsValidRange(lbn * BlockSize, |NoneText|, device.file.Length) ==>
                device.file[..] == Overwrite(old(device.file[..]), NoneText, lbn * BlockSize)
      ensures buffer == null && !IsValidRange(lbn * BlockSize, |NoneText|, device.file.Length) ==>
                device.file[..] == old(device.file[..])
    {
      var data := if buffer == null then NoneText else buffer[..];
      var code := device.Write(Some(data), lbn * BlockSize);
      out := if IsSuccess(code) then Pass else Fail(DeviceAccess(code));
    }
  }

  // ---------------------------------------------------------------------------------
  // The filesystem object
  // ---------------------------------------------------------------------------------

  /** What `_find_free_block(start, end)` returns once it has reached block `b`: the
      first zero byte of the buffers it scans, which are fresh and never loaded. */
  function FreshScan(start: int, b: int, end: int): int
    decreases end - b
  {
    if b >= end then -1
    else
      var k := FirstZero(Zeros(BlockSize), 0);
      if k != -1 then (b - start) * BlockSize + k else FreshScan(start, b + 1, end)
  }

  /** The search answers 0 for every non-empty range and -1 for an empty one, whatever the
      device holds. */
  lemma FreshScanIgnoresDevice(start: int, end: int)
    ensures FreshScan(start, start, end) == if start < end then 0 else -1
  {
    if start < end {
      assert Zeros(BlockSize)[0] == 0;
    }
  }

  class FileSystem {
    const device: FileDisk
    var size: int
    var sb: SuperBlock

    constructor (device: FileDisk, size: int, sb: SuperBlock)
      ensures this.device == device && this.size == size && this.sb == sb
    {
      this.device := device;
      this.size := size;
      this.sb := sb;
    }

    /** `__init__`: computes the size and superblock and touches nothing on the device. */
    static method Create(device: FileDisk, size: int) returns (r: Result<FileSystem, StorageError>)
      requires device.Valid()
      modifies device`cachedSize
      ensures device.Valid()
      ensures r.Ok? <==> InitSuperBlock(DefaultSuperBlock(), size, device.file.Length).Ok?
      ensures r.Err? ==> r.error == DeviceNoEnoughSpace
      ensures r.Ok? ==> fresh(r.value) && r.value.device == device
      ensures r.Ok? ==> (r.value.size, r.value.sb) == InitSuperBlock(DefaultSuperBlock(), size, device.file.Length).value
    {
      var deviceSize := device.Size();
      var init := InitSuperBlock(DefaultSuperBlock(), size, deviceSize);
      if init.Err? {
        return Err(init.error);
      }
      var fs := new FileSystem(device, init.value.0, init.value.1);
      r := Ok(fs);
    }

    /** `load_super_block`: the superblock becomes the record at the start of block 0. */
    method LoadSuperBlock() returns (out: Outcome<StorageError>)
      requires device.Valid()
      modifies this`sb, device`cachedSize
      ensures device.Valid()
      ensures out.Pass? <==> Readable(device.file.Length, 0)
      ensures out.Fail? ==> out.error == DeviceAccess(ErrInvalidArgument) && sb == old(sb)
      ensures out.Pass? ==> sb == Unpack(device.file[..SuperBlockBytes])
    {
      var bc := new BlockCache(device, 0);
      out := bc.LoadFromDevice();
      if out.Fail? {
        return;
      }
      assert bc.buffer[..SuperBlockBytes] == device.file[..SuperBlockBytes];
      sb := Unpack(bc.buffer[..SuperBlockBytes]);
      bc.Discard();
    }

    /** `flush_super_block`: block 0 becomes the record followed by zeros, or the device
        is left as it was when a field does not fit its word. */
    method FlushSuperBlock() returns (out: Outcome<StorageError>)
      requires device.Valid()
      modifies device`cachedSize, device.file
      ensures device.Valid()
      ensures !FieldsFit(sb) ==> out == Fail(StructRange) && device.file[..] == old(device.file[..])
      ensures FieldsFit(sb) ==> out == Pass
      ensures FieldsFit(sb) ==>
                device.file[..] == FlushBlock(old(device.file[..]), 0, Pack(sb).value + Zeros(BlockSize - SuperBlockBytes))
    {
      var bc := new BlockCache(device, 0);
      var packed := Pack(sb);
      if packed.Err? {
        return Fail(packed.error);
      }
      var b := packed.value;
      forall i | 0 <= i < SuperBlockBytes {
        bc.buffer[i] := b[i];
      }
      assert bc.buffer[..] == b + Zeros(BlockSize - SuperBlockBytes);
      out := bc.FlushToDevice();
      bc.Discard();
    }

    /** `_find_free_block(start, end)`: each block of the range gets a fresh cache whose
        buffer is scanned for a zero byte without ever being loaded from the device. */
    method FindFreeBlock(start: int, end: int) returns (r: int)
      ensures r == FreshScan(start, start, end)
    {
      if start < end {
        for block := start to end
          invariant FreshScan(start, start, end) == FreshScan(start, block, end)
        {
          var bc := new BlockCache(device, block);
          var index := ScanBlock(bc.buffer);
          if index != -1 {
            return (block - start) * BlockSize + index;
          }
        }
      }
      r := -1;
    }

    /** `find_free_inode_block`: the region start is added to any result but -1. */
    method FindFreeInodeBlock() returns (r: int)
      ensures r == if sb.inodeBitmapBlocks > 0 then sb.inodeStart else -1
    {
      var start := sb.inodeBitmapStart;
      r := FindFreeBlock(start, start + sb.inodeBitmapBlocks);
      FreshScanIgnoresDevice(start, start + sb.inodeBitmapBlocks);
      if r != -1 {
        r := r + sb.inodeStart;
      }
    }

    /** `find_free_data_block`: the region start is added to any result but -1. */
    method FindFreeDataBlock() returns (r: int)
      ensures r == if sb.dataBitmapBlocks > 0 then sb.dataStart else -1
    {
      var start := sb.dataBitmapStart;
      r := FindFreeBlock(start, start + sb.dataBitmapBlocks);
      FreshScanIgnoresDevice(start, start + sb.dataBitmapBlocks);
      if r != -1 {
        r := r + sb.dataStart;
      }
    }
  }

  // ---------------------------------------------------------------------------------
  // The unloaded scan, against the later revision's search

  /** The search scans block caches that were never loaded from the device, so it reports
      entry 0 of the first scanned block as free even when the device marks every entry of
      the scanned blocks as used; the later revision's search, which loads each block,
      reports that no entry is free. */
  lemma {:induction false} UnloadedScanReportsUsedEntry(bytes: seq<byte>, start: int, end: int)
    requires 0 <= start < end && end * BlockSize < |bytes|
    requires Fs.NonZero(bytes, start * BlockSize, end * BlockSize)
    ensures FreshScan(start, start, end) == 0 && bytes[start * BlockSize] != 0
    ensures Fs.FindFree(bytes, start, start, end) == Ok(-1)
  {
    FreshScanIgnoresDevice(start, end);
    Fs.FindFreeFirstFit(bytes, start, start, end);
  }
}
