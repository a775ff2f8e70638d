/** Error codes, error kinds and the result wrappers shared by the storage model. */
module Error {

  /** Numeric result codes returned by device reads and writes. */
  const ErrSuccess: int := 0
  const ErrInvalidArgument: int := 1024
  const ErrOutOfRange: int := 1025
  const ErrReadDataFail: int := 1025
  const ErrWriteDataFail: int := 1027

  predicate IsSuccess(code: int) {
    code == ErrSuccess
  }

  /** The exceptions the storage stack raises, as values. */
  datatype StorageError =
    | DeviceAccess(code: int)       // a device read or write did not succeed
    | DeviceNoEnoughSpace           // requested size below the metadata footprint
    | BadSuperBlock                 // magic number mismatch on attach
    | StructRange                   // a superblock field does not fit an unsigned 32-bit word
    | NeedToBeImplemented           // base-device read/write
    | FunctionalNotImplement        // memory and network disks
    | EmptyCache                    // eviction from an empty LRU cache

  datatype Option<+T> = None | Some(value: T)

  datatype Result<+T, +E> = Ok(value: T) | Err(error: E)

  datatype Outcome<+E> = Pass | Fail(error: E)
}
