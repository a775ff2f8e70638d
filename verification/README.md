# storage2 in Dafny

A model of the storage stack in `guolinp/storage2`, with proofs about it. The model has
three parts.

- **The device tree** (device.py, raid.py, lun.py, disk.py). Devices are kept in an
  arena: a map from device id to a record with the kind, the parent link, the ordered
  list of children and the size.
  - A file disk is a leaf. Its backing file is an in-memory `array<byte>`, and every read
  and write goes through `is_valid_range`.
  - A raid or a lun gets its size by adding up its children.
  - `add_child` and `remove_child` recompute sizes from the changed device up to the root.
  - A ghost rank map, which strictly increases along parent links, proves that this upward
  recursion terminates.
  - The class invariant says that every device's size equals the sum of its children's
  sizes.
- **The filesystem layout engine**, in two revisions: file_system.py (module `Fs`) and the
  older filesystem.py (module `LegacyFs`).
  - The superblock geometry and its 32-bit record codec.
  - The 4096-byte block cache, through which all metadata I/O goes.
  - The first-fit allocators that scan the byte-per-block bitmaps for a zero byte.
  - The read-modify-write that marks one block used or free.
  - Formatting and attaching a device.
  - The device contents are a byte sequence. Each device-changing method is proved to
    leave the device equal to a function of its old contents (`FlushBlock`, `ZeroBlocks`,
    `Formatted`), and lemmas prove what those functions mean.
- **The LRU cache** (lru.py). The ordered dictionary is a sequence of distinct keys, from
  least to most recently used, plus a map from keys to values. `get` and `set` are methods
  on a class holding these two fields. Each is proved equal to a state function
  (`AfterGet`, `AfterSet`), and lemmas cover eviction, order and the capacity bound.

Error codes follow error.py: 0 is success, 1024 is an invalid argument, 1025 is a read
failure (and also "out of range"), and 1027 is a write failure. A raised exception becomes
the `Err`/`Fail` case of a result value that carries a `StorageError` kind.

The model follows the code as written, including these behaviours a reader might not expect:

- `is_valid_range` uses a strict `offset + length < size`, so a range that ends exactly at
  the device size is refused. One consequence is that the last block of a disk cannot be
  read through the block cache.
- `FileDisk.write` reports success for a range it refuses, so `flush_to_device` never fails.
- `_init_super_block` in file_system.py checks the space only for an explicit size that fits
  the device. A size of 0, or one above the device size, is clamped without the check. On a
  device smaller than the metadata, the data region then becomes negative, and formatting
  fails when the superblock is packed (`Fs.SmallDeviceSkipsSpaceCheck`).
- The filesystem's device is a `FileDisk`. In this code a lun's or a raid's `read` and
  `write` only raise, so no filesystem can run on them.

## Model

| member | source | states |
|---|---|---|
| Device.ValidRangeBounds | device.py:62-63 | a valid range starts at or after 0, is non-empty and ends at or before `size - 1` |
| Device.ValidRangeBoundary | device.py:62-63 | a range that ends exactly at the device size is refused, and so is any zero-length range |
| Disk.Overwrite | disk.py:87-92 | after a write the range holds the data, every other byte is unchanged and the length is kept |
| Disk.ReadAfterWrite | disk.py:54-97 | reading back the written range returns the data; reading a disjoint range returns the old bytes |
| Disk.FileDisk.constructor | disk.py:37-39 | a new file disk holds the given contents and has not yet cached its size |
| Disk.FileDisk.Size | disk.py:41-48 | the size is the file length; once cached it is returned unchanged |
| Disk.FileDisk.Read | disk.py:54-78 | an invalid range gives (1024, None); a valid one gives (0, exactly `length` bytes from `offset`) |
| Disk.FileDisk.Write | disk.py:80-97 | no data gives 1024 and changes nothing; otherwise 0, with the range overwritten only when it is valid |
| Disk.OpenDisk | disk.py:17-39 | only a file disk can be constructed; a memory or network disk fails as not implemented |
| Disk.WriteThenRead | disk.py:54-97 | a write followed by a read of the same valid range returns the data; an invalid range leaves the disk unchanged |
| DeviceTree.Tree.constructor | device.py:7-16 | an empty device tree satisfies the tree invariant |
| DeviceTree.Tree.AddDevice | device.py:11-16 | a new device has no parent and no children; a raid or lun has size 0, a disk its file length; the invariant holds |
| DeviceTree.Tree.UpdateSize | device.py:42-49 | afterwards every device equals the sum of its children; links are unchanged and only the device and its ancestors change size |
| DeviceTree.Tree.AddChild | device.py:51-55 | a present child changes nothing; otherwise the child is appended, its parent is set, `num_child` grows by 1 and the parent grows by the child's size |
| DeviceTree.Tree.Link | device.py:52-54 | appending the child and setting its parent leaves every device except the parent agreeing with its children |
| DeviceTree.Tree.RemoveChild | device.py:57-60 | an absent child changes nothing; otherwise it leaves the list (keeping its parent link), `num_child` drops by 1 and the parent shrinks by its size |
| DeviceTree.Tree.Read | device.py:65-66 | a raid or a lun fails as need-to-implement; a disk serves the read with its range check |
| DeviceTree.Tree.Write | device.py:68-69 | a raid or a lun fails as need-to-implement; a disk serves the write with its range check |
| DeviceTree.ResizeConsistent | device.py:43-46 | setting a device to the sum of its children makes it agree with them; every device but its parent still agrees, and the parent is next to be recomputed |
| DeviceTree.AddedEffect | device.py:51-55 | attaching and then recomputing sizes has exactly the effect `ChildAdded` describes |
| DeviceTree.RemovedEffect | device.py:57-60 | detaching and then recomputing sizes has exactly the effect `ChildRemoved` describes |
| DeviceTree.ParentFollows | device.py:42-49 | when a device changes size by d, the device that lists it changes by the same d |
| DeviceTree.AddedParent | device.py:48-55 | after `add_child(c)` the grandparent grows by the size of `c` |
| DeviceTree.RemovedParent | device.py:48-60 | after `remove_child(c)` the grandparent shrinks by the size of `c` |
| Raid.AddDisk | raid.py:8-9 | exactly `add_child`; a raid inside a lun makes the lun grow by the size of the disk |
| Raid.RemoveDisk | raid.py:11-12 | exactly `remove_child`; a raid inside a lun makes the lun shrink by the size of the disk |
| Lun.AddRaid | lun.py:8-9 | exactly `add_child`: adding twice is a no-op, otherwise the raid becomes the last child and sizes agree |
| Lun.RemoveRaid | lun.py:11-12 | exactly `remove_child`: a non-member changes nothing, otherwise sizes agree afterwards |
| LittleEndian.UnpackPack | file_system.py:45-56 | packing 32-bit words and unpacking them returns the words |
| LittleEndian.PackUnpack | file_system.py:45-56 | unpacking bytes and packing them again returns the bytes |
| Blocks.Zeros | file_system.py:90-92 | a fresh buffer holds `n` zero bytes |
| Blocks.Range | file_system.py:239-244 | `range(a, b)` lists exactly the integers from a to b - 1, in increasing order |
| Blocks.BlockAt | file_system.py:94-101 | a loaded block is the 4096 bytes starting at `block * 4096` |
| Blocks.FlushBlock | file_system.py:103-109 | a flush replaces exactly the bytes of a block that passes the range check and keeps every other byte |
| Blocks.ZeroBlocksEffect | file_system.py:246-251 | flushing a zero block to each listed block clears exactly the bytes of the writable listed blocks |
| Blocks.FirstZero | file_system.py:168-172 | the result is the first zero byte at or after `from`, or -1 when every later byte is nonzero |
| Blocks.ScanBlock | file_system.py:168-172 | the loop over a buffer returns the index of its first zero byte, or -1 |
| Fs.DefaultLayout | file_system.py:15-29 | the default regions are contiguous at blocks 0, 1, 9, 73 and 73 + 32768, and the default superblock carries the magic number |
| Fs.MetadataSpaceSize | file_system.py:31-36 | for contiguous regions, the metadata size is the byte offset of the data region |
| Fs.AdjustDataSpaceSize | file_system.py:38-39 | the data region becomes the floor of size/4096 blocks and nothing else changes |
| Fs.Pack | file_system.py:51-56 | packing succeeds exactly when all eleven fields fit in 32 bits, and gives 44 bytes |
| Fs.Unpack | file_system.py:45-49 | every unpacked field fits in 32 bits |
| Fs.UnpackPack | file_system.py:45-56 | a flush then a load restores all eleven fields |
| Fs.PackUnpack | file_system.py:45-56 | a load then a flush restores all 44 bytes |
| Fs.InitSuperBlock | file_system.py:129-140 | size 0 or above the device becomes the device size; only an explicit size inside the device that is below the metadata is refused; the data region takes the floor of the rest |
| Fs.SmallDeviceSkipsSpaceCheck | file_system.py:129-140 | with size 0 on a device smaller than the metadata, the init succeeds with a negative data region that cannot be packed |
| Fs.SuperBlockImage | file_system.py:148-152 | block 0 as flushed is the 44-byte record followed by zeros |
| Fs.FlushThenLoad | file_system.py:142-152 | a superblock flushed to a readable block 0 is loaded back unchanged; an unreadable block 0 is not written |
| Fs.BlockCache.constructor | file_system.py:74-76 | a new cache is bound to the block and holds 4096 zero bytes |
| Fs.BlockCache.DiscardCache | file_system.py:86-88 | the buffer is dropped |
| Fs.BlockCache.ZeroCache | file_system.py:90-92 | the buffer becomes 4096 fresh zero bytes |
| Fs.BlockCache.LoadFromDevice | file_system.py:94-101 | succeeds exactly when the block passes the range check, and then the buffer is that block; otherwise a device-access error |
| Fs.BlockCache.FlushToDevice | file_system.py:103-109 | always reports success; the device becomes `FlushBlock` of the buffer at the cache's block |
| Fs.FlushToBlockCache | file_system.py:51-56 | bytes 0..43 become the record and no other byte changes; a field that does not fit fails before the buffer is touched |
| Fs.Formatted | file_system.py:121-123 | formatting keeps the device length |
| Fs.FindFreeFirstFit | file_system.py:154-174 | a found offset is a zero byte with only nonzero bytes before it in the range; -1 exactly when all blocks are readable and nonzero; any other result is a device-access error |
| Fs.MarkedNotFoundAgain | file_system.py:154-174 | once the found byte is marked used, the next search returns a strictly later offset or -1 |
| Fs.BitmapPlace | file_system.py:206-220 | the entry index within the bitmap block is in 0..4095 |
| Fs.BitmapPos | file_system.py:209-220 | an inode block's entry is at byte (block - inode start) of the inode bitmap, and a data block's entry at byte (block - data start) of the data bitmap |
| Fs.BitmapBlocks | file_system.py:234-244 | the blocks cleared are exactly those of the inode bitmap and the data bitmap |
| Fs.FreeInodeBlockIsFirstFree | file_system.py:176-188 | a returned inode block is free and every earlier inode block is used; -1 means every inode block the bitmap covers is used |
| Fs.FreeDataBlockIsFirstFree | file_system.py:190-202 | a returned data block is free and every earlier data block is used; -1 means every data block the bitmap covers is used |
| Fs.FlushPatchedBlock | file_system.py:221-225 | writing back a loaded block with one byte replaced changes exactly that byte of the device |
| Fs.FormatThenAttach | file_system.py:114-127 | a freshly formatted device is attachable, and attaching finds the superblock the format wrote |
| Fs.ClearedMapsAllFree | file_system.py:234-251 | after the bitmaps are cleared, allocation returns the first inode block and the first data block |
| Fs.InodeAllocationAdvances | file_system.py:176-188 | marking the returned inode block used makes the next allocation return a later block or none |
| Fs.DataAllocationAdvances | file_system.py:190-202 | marking the returned data block used makes the next allocation return a later block or none |
| Fs.FindFreeReaches | file_system.py:164-174 | a zero byte in a readable block stops the search there or earlier, with no device error |
| Fs.FreedInodeBlockFoundAgain | file_system.py:176-188 | after marking an inode block free, the next allocation returns it or an earlier inode block, and returns it exactly when every earlier inode block is in use |
| Fs.FreedDataBlockFoundAgain | file_system.py:190-202 | after marking a data block free, the next allocation returns it or an earlier data block, and returns it exactly when every earlier data block is in use |
| Fs.FileSystem.constructor | file_system.py:114-119 | the object holds the device, the size and the superblock |
| Fs.FileSystem.Create | file_system.py:114-127 | no space fails with the device unchanged; new: superblock flushed and bitmaps zeroed; attach: device unchanged, success exactly when block 0 is readable and has the magic, otherwise a device-access or bad-superblock error |
| Fs.FileSystem.LoadSuperBlock | file_system.py:142-146 | the superblock becomes the record of block 0, or a device-access error when block 0 is unreadable |
| Fs.FileSystem.FlushSuperBlock | file_system.py:148-152 | block 0 becomes the superblock image, or the device is unchanged with a packing error |
| Fs.FileSystem.FindFreeBlock | file_system.py:154-174 | the loop returns exactly the first-fit result `FindFree` over the device |
| Fs.FileSystem.FindFreeInodeBlock | file_system.py:176-188 | returns `FreeInodeBlock`: the offset plus the inode start when below the inode count, otherwise -1 |
| Fs.FileSystem.FindFreeDataBlock | file_system.py:190-202 | returns `FreeDataBlock`: the offset plus the data start when below the data count, otherwise -1 |
| Fs.FileSystem.UpdateBitmap | file_system.py:204-226 | an unmanaged block changes nothing; otherwise exactly the block's bitmap byte becomes the value, or a device-access error leaves the device unchanged |
| Fs.FileSystem.MarkBlockUsed | file_system.py:228-229 | an unmanaged block passes unchanged; otherwise it passes exactly when the entry's bitmap block can be read, and then exactly the block's bitmap byte becomes 1; a failure is a device access error and changes nothing |
| Fs.FileSystem.MarkBlockFree | file_system.py:231-232 | an unmanaged block passes unchanged; otherwise it passes exactly when the entry's bitmap block can be read, and then exactly the block's bitmap byte becomes 0; a failure is a device access error and changes nothing |
| Fs.FileSystem.ClearBitmapSpace | file_system.py:234-251 | the device becomes the old device with every inode-bitmap and data-bitmap block zeroed |
| Fs.CreateFs | file_system.py:283-285 | formats the device as `Create` with `new`: no space, a field that does not fit, or the formatted device with the computed size and superblock |
| Fs.AttachFs | file_system.py:287-289 | attaches with size 0: success exactly when block 0 is readable and carries the magic, and the size is the device size |
| LegacyFs.DefaultLayout | filesystem.py:12-25 | the default regions are contiguous from block 0, with 8 * 1024 inode blocks and 256 * 1024 data blocks |
| LegacyFs.MetadataSpaceSize | filesystem.py:27-32 | for contiguous regions, the metadata size is the byte offset of the data region |
| LegacyFs.AdjustDataSpaceSize | filesystem.py:34-35 | the data region becomes the floor of size/4096 blocks and nothing else changes |
| LegacyFs.Pack | filesystem.py:42-47 | packing succeeds exactly when all ten fields fit in 32 bits, and gives 40 bytes |
| LegacyFs.Unpack | filesystem.py:37-40 | every unpacked field fits in 32 bits |
| LegacyFs.UnpackPack | filesystem.py:37-47 | a flush then a load restores all ten fields |
| LegacyFs.PackUnpack | filesystem.py:37-47 | a load then a flush restores all 40 bytes |
| LegacyFs.InitSuperBlock | filesystem.py:109-116 | the size is clamped first, then every size below the metadata is refused; the data region is never negative |
| LegacyFs.ZeroSizeRefused | filesystem.py:109-116 | a size of 0 is always refused |
| LegacyFs.BlockCache.constructor | filesystem.py:64-67 | the cache is bound to the device and the block, with 4096 zero bytes |
| LegacyFs.BlockCache.Discard | filesystem.py:94-97 | the buffer is dropped; a second discard is harmless |
| LegacyFs.BlockCache.LoadFromDevice | filesystem.py:77-84 | succeeds exactly when the block passes the range check, and then the buffer is that block; otherwise a device-access error |
| LegacyFs.BlockCache.FlushToDevice | filesystem.py:86-92 | always reports success; a buffer is flushed as `FlushBlock`, and a discarded buffer is written as the text `None` |
| LegacyFs.FreshScanIgnoresDevice | filesystem.py:130-146 | the search returns 0 for every non-empty range and -1 for an empty one, whatever the device holds |
| LegacyFs.FileSystem.constructor | filesystem.py:102-107 | the object holds the device, the size and the superblock |
| LegacyFs.FileSystem.Create | filesystem.py:102-116 | success exactly when the init succeeds, and then it carries the init's size and superblock; the device is not written |
| LegacyFs.FileSystem.LoadSuperBlock | filesystem.py:118-122 | the superblock becomes the record of block 0, or a device-access error when block 0 is unreadable |
| LegacyFs.FileSystem.FlushSuperBlock | filesystem.py:124-128 | block 0 becomes the record followed by zeros, or the device is unchanged with a packing error |
| LegacyFs.FileSystem.FindFreeBlock | filesystem.py:130-146 | the loop returns the scan of never-loaded buffers |
| LegacyFs.FileSystem.FindFreeInodeBlock | filesystem.py:148-154 | the inode start for any non-empty inode bitmap, otherwise -1, with no check against the inode count |
| LegacyFs.FileSystem.FindFreeDataBlock | filesystem.py:156-162 | the data start for any non-empty data bitmap, otherwise -1, with no check against the data count |
| LegacyFs.UnloadedScanReportsUsedEntry | filesystem.py:130-146 | on a bitmap whose every entry is used, this search reports entry 0 as free, while the loading search reports none |
| LruCache.AfterGet | lru.py:12-18 | an absent key returns None and changes nothing; a present key returns its value, keeps the map and becomes the newest key |
| LruCache.AfterSet | lru.py:20-26 | fails with the empty-cache error exactly when a new key meets a full, empty cache; otherwise the key maps to the value and is the newest |
| LruCache.GetPreservesCoherence | lru.py:12-18 | `get` keeps the keys distinct, in step with the map, within capacity and of the same number |
| LruCache.GetKeepsOrder | lru.py:12-16 | `get` moves the key to the end and the other keys keep their relative order |
| LruCache.SetPresent | lru.py:20-26 | `set` of a present key replaces its value, moves it to the end, evicts nothing and keeps the size |
| LruCache.SetEvicts | lru.py:23-26 | `set` of a new key into a full cache evicts exactly the oldest key, appends the new one and keeps the size |
| LruCache.SetGrows | lru.py:23-26 | `set` of a new key into a cache with room appends it and grows the size by 1 |
| LruCache.NonPositiveCapacityFails | lru.py:23-26 | with capacity 0 or less, the first `set` fails with the empty-cache error |
| LruCache.SetPreservesCoherence | lru.py:20-26 | a successful `set` keeps the keys distinct, in step with the map and within capacity |
| LruCache.GetAfterSet | lru.py:12-26 | right after `set(k, v)` succeeds, `get(k)` returns v |
| LruCache.Lru.constructor | lru.py:8-10 | a new cache is empty with the given capacity |
| LruCache.Lru.Default | lru.py:8-10 | a cache built without a capacity argument is empty with capacity 32 |
| LruCache.Lru.Get | lru.py:12-18 | the new contents and the result are `AfterGet` of the old contents; the invariant holds |
| LruCache.Lru.Set | lru.py:20-26 | the new contents are `AfterSet` of the old; the eviction failure leaves the cache unchanged; the invariant holds |

## Left out

- Inode and directory operations (`mount`, `unmount`, `ls`, `mkdir`, `rmdir`, `create_file`, `remove_file`, `read_file`, `write_file`, file_system.py:253-278): stubs that return success or raise not-implemented, with no logic to model.
- Printing (`dump_super_block`, `dump_device_tree`), the `__main__` blocks, and the module-level script at filesystem.py:165-173: output only.
- The `name` fields, `info` strings and the `Storage` base class with its logger: no behaviour.
- Real file I/O in `FileDisk` (`os.open`, `mmap`, `os.path.getsize`) and the exceptions it can raise: the file is an in-memory byte array of fixed length. The short-read branch (disk.py:73-76) cannot happen in that model.
- Python's `struct` code `'I'` uses the machine's byte order: the model fixes it to little-endian 4-byte words.
- Fs.BlockCache.DiscardCache: requires a live buffer. A second discard, or a use after discard, raises an attribute error in the source, and the model does not represent that error.
- The filesystem's device is a `FileDisk` rather than a lun. A lun's and a raid's `read` and `write` only raise (`DeviceTree.Tree.Read`, `DeviceTree.Tree.Write`), so a filesystem on them could not do anything.
- DeviceTree.Tree.AddChild: requires that the child is not the parent or one of its ancestors, because `update_size` would then recurse forever. It also requires that no other device lists the child, because that device's size would then go stale.
- Block trees built from a JSON configuration (block_system.py, block.py) are not part of this model.

## Findings

| source | as written | input that shows it | evidently intended | confidence | as-written member | corrected member |
|---|---|---|---|---|---|---|
| filesystem.py:130-146 | each scanned `BlockCache` is created with a zeroed buffer and scanned without `load_from_device` | a device whose bitmap blocks `start`..`end - 1` hold only nonzero bytes, i.e. every entry is in use | load each block before scanning it, as file_system.py:164-172 does, so a full bitmap gives -1 | high; not executed | LegacyFs.UnloadedScanReportsUsedEntry | Fs.FileSystem.FindFreeBlock |
