/** Shared vocabulary: the byte strings that names, passwords and descriptions are made of. */
module Common {

  /** One octet of a byte string. */
  type byte = x: int | 0 <= x < 256

  /** A byte string: the model's stand-in for the text the service receives and stores. */
  type Bytes = seq<byte>

  datatype Option<+T> = None | Some(value: T)
}
