/** Optional values and results, in place of the program's nil and error returns; bytes, words
    and names. */
module Results {
  type byte = x: int | 0 <= x < 256

  type Bytes = seq<byte>

  type uint64 = x: int | 0 <= x < 0x1_0000_0000_0000_0000

  type PeerId = string

  /** A file hash: the hexadecimal SHA-256 of a file, or whatever string a caller takes for one. */
  type Hash = string

  datatype Option<+T> = None | Some(value: T)

  datatype Result<+T, +E> = Success(value: T) | Failure(error: E)
}
