/** Shared vocabulary: bytes, optional values, results and ASCII literals. */
module Common {

  /** One byte of a file or of an OS string (Rust `u8`). */
  newtype byte = x: int | 0 <= x < 256

  type Bytes = seq<byte>

  datatype Option<T> = None | Some(value: T)

  datatype Result<T, E> = Ok(value: T) | Err(error: E)

  /** Rust's `std::cmp::Ordering`. */
  datatype Ordering = Less | Equal | Greater {
    function Reverse(): Ordering {
      match this
      case Less => Greater
      case Equal => Equal
      case Greater => Less
    }
  }

  predicate AllAscii(b: Bytes) {
    forall i :: 0 <= i < |b| ==> b[i] < 128
  }
}
