/** Machine types, constants and result types shared by the model of the stress harness. */
module Types {

  /** An unsigned byte (`u8`). */
  type byte = x: int | 0 <= x < 256

  /** One more than the largest `u64`. */
  const U64_LIMIT: int := 0x1_0000_0000_0000_0000

  /** An unsigned 64-bit integer (`u64`). */
  type u64 = x: int | 0 <= x < 0x1_0000_0000_0000_0000

  /** Number of key operations per write transaction. */
  const TX_SIZE: nat := 5

  /** Length of the canonical value; stored values are prefixes of it. */
  const MAX_VAL_SIZE: nat := 4096

  datatype Option<T> = None | Some(value: T)

  /** The one engine error the harness can provoke: a key that is not in the database. */
  datatype EngineError = NotFound

  datatype Result<T> = Ok(value: T) | Err(error: EngineError)
}
