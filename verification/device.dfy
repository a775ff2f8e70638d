/** The range check every device applies before it reads or writes (device.py). */
module Device {

  /** `is_valid_range`: a non-negative offset, a positive length, and a range that ends
      strictly before `size`. A range ending exactly at `size` is rejected. */
  predicate IsValidRange(offset: int, length: int, size: int) {
    offset >= 0 && length > 0 && offset + length < size
  }

  /** A valid range lies inside the device and never reaches its last byte. */
  lemma ValidRangeBounds(offset: int, length: int, size: int)
    requires IsValidRange(offset, length, size)
    ensures 0 <= offset < offset + length <= size - 1
  {
  }

  /** The boundary case: a range that ends exactly at the device size is refused, and so
      is every range of length zero. */
  lemma ValidRangeBoundary(offset: int, length: int, size: int)
    ensures offset + length == size ==> !IsValidRange(offset, length, size)
    ensures length == 0 ==> !IsValidRange(offset, length, size)
  {
  }
}
