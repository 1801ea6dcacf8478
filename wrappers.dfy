/** Option, the driver's error taxonomy and the Result every fallible operation returns. */
module Wrappers {

  datatype Option<+T> = None | Some(value: T)

  /** The driver's errors. `Spi` stands for any failed bus transaction. */
  datatype Error =
    | Spi
    | SyncSize
    | AesKeySize
    | Timeout
    | BufferTooSmall
    | PacketTooLarge

  datatype Result<+T> = Ok(value: T) | Err(error: Error)
}
