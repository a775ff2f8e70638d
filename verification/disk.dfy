/** Leaf devices (disk.py): a file-backed disk whose backing file is an in-memory byte
    array, and the memory and network disks that are not implemented. */
module Disk {
  import opened Error
  import opened Device
  import opened Byte

  /** The bytes of `bytes` after `data` has been written at `offset`. */
  function Overwrite(bytes: seq<byte>, data: seq<byte>, offset: nat): (r: seq<byte>)
    requires offset + |data| <= |bytes|
    ensures |r| == |bytes|
    ensures r[offset..offset + |data|] == data
    ensures forall i :: 0 <= i < |bytes| && !(offset <= i < offset + |data|) ==> r[i] == bytes[i]
  {
    bytes[..offset] + data + bytes[offset + |data|..]
  }

  /** Reading back a range that was just written returns what was written; a read of any
      range disjoint from it returns what was there before. */
  lemma {:induction false} ReadAfterWrite(bytes: seq<byte>, data: seq<byte>, offset: nat, o: nat, l: nat)
    requires offset + |data| <= |bytes| && o + l <= |bytes|
    ensures o == offset && l == |data| ==> Overwrite(bytes, data, offset)[o..o + l] == data
    ensures o + l <= offset || offset + |data| <= o ==> Overwrite(bytes, data, offset)[o..o + l] == bytes[o..o + l]
  {
    var w := Overwrite(bytes, data, offset);
    if o + l <= offset || offset + |data| <= o {
      assert forall i :: o <= i < o + l ==> w[i] == bytes[i];
      assert w[o..o + l] == bytes[o..o + l];
    }
  }

  /** `FileDisk`: the backing file is `file`; `cachedSize` is the `_size` field, which stays
      0 until the size is first asked for and then holds the file length. */
  class FileDisk {
    const file: array<byte>
    var cachedSize: nat

    ghost predicate Valid()
      reads this
    {
      cachedSize == 0 || cachedSize == file.Length
    }

    constructor (contents: seq<byte>)
      ensures Valid() && fresh(file)
      ensures file[..] == contents && cachedSize == 0
    {
      file := new byte[|contents|](i requires 0 <= i < |contents| => contents[i]);
      cachedSize := 0;
    }

    /** The `size` property: the file length, looked up once and then cached. */
    method Size() returns (s: nat)
      requires Valid()
      modifies this`cachedSize
      ensures Valid()
      ensures s == file.Length && cachedSize == file.Length
      ensures old(cachedSize) != 0 ==> s == old(cachedSize)
    {
      if cachedSize == 0 {
        cachedSize := file.Length;
      }
      s := cachedSize;
    }

    /** `read(offset, length)`: an invalid range reads nothing and reports an invalid
        argument; a valid one returns exactly `length` bytes starting at `offset`. */
    method Read(offset: int, length: int) returns (code: int, data: Option<seq<byte>>)
      requires Valid()
      modifies this`cachedSize
      ensures Valid() && cachedSize == file.Length
      ensures !IsValidRange(offset, length, file.Length) ==> code == ErrInvalidArgument && data == None
      ensures IsValidRange(offset, length, file.Length) ==>
                code == ErrSuccess && data == Some(file[offset..offset + length])
      ensures data.Some? ==> |data.value| == length
    {
      var size := Size();
      if !IsValidRange(offset, length, size) {
        return ErrInvalidArgument, None;
      }
      code, data := ErrSuccess, Some(file[offset..offset + length]);
    }

    /** `write(data, offset)`: absent data is an invalid argument; otherwise the call
        reports success, and the bytes are replaced only when the range is valid. */
    method Write(data: Option<seq<byte>>, offset: int) returns (code: int)
      requires Valid()
      modifies this`cachedSize, file
      ensures Valid()
      ensures data.None? ==> code == ErrInvalidArgument && file[..] == old(file[..]) && cachedSize == old(cachedSize)
      ensures data.Some? ==> cachedSize == file.Length
      ensures data.Some? ==> code == ErrSuccess
      ensures data.Some? && !IsValidRange(offset, |data.value|, file.Length) ==> file[..] == old(file[..])
      ensures data.Some? && IsValidRange(offset, |data.value|, file.Length) ==>
                file[..] == Overwrite(old(file[..]), data.value, offset)
    {
      if data.None? {
        return ErrInvalidArgument;
      }
      var d := data.value;
      var size := Size();
      if IsValidRange(offset, |d|, size) {
        forall i | offset <= i < offset + |d| {
          file[i] := d[i - offset];
        }
        assert file[..] == Overwrite(old(file[..]), d, offset);
      }
      code := ErrSuccess;
    }
  }

  /** The kinds of disk the source declares. */
  datatype Medium = LocalFile(contents: seq<byte>) | Memory | Network

  /** Constructing a disk: only a file-backed disk exists; constructing a memory or a
      network disk fails as not implemented. */
  method OpenDisk(medium: Medium) returns (r: Result<FileDisk, StorageError>)
    ensures r.Ok? <==> medium.LocalFile?
    ensures r.Err? ==> r.error == FunctionalNotImplement
    ensures r.Ok? ==> fresh(r.value) && fresh(r.value.file) && r.value.Valid()
    ensures r.Ok? ==> r.value.file[..] == medium.contents && r.value.cachedSize == 0
  {
    match medium
    case LocalFile(contents) =>
      var d := new FileDisk(contents);
      r := Ok(d);
    case Memory =>
      r := Err(FunctionalNotImplement);
    case Network =>
      r := Err(FunctionalNotImplement);
  }

  /** Writing `data` at `offset` and reading the same range back returns `data` when the
      range is valid; when it is not, the write leaves the disk as it was. */
  method WriteThenRead(disk: FileDisk, data: seq<byte>, offset: int) returns (code: int, back: Option<seq<byte>>)
    requires disk.Valid()
    modifies disk`cachedSize, disk.file
    ensures IsValidRange(offset, |data|, disk.file.Length) ==> code == ErrSuccess && back == Some(data)
    ensures !IsValidRange(offset, |data|, disk.file.Length) ==>
              code == ErrInvalidArgument && back == None && disk.file[..] == old(disk.file[..])
  {
    var w := disk.Write(Some(data), offset);
    code, back := disk.Read(offset, |data|);
    if IsValidRange(offset, |data|, disk.file.Length) {
      ReadAfterWrite(old(disk.file[..]), data, offset, offset, |data|);
    }
  }
}
