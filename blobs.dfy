/** Byte strings: the Rust library's `Vec<u8>`, `&[u8]` and `AsRef<[u8]>` blobs. */
module Blobs {

  newtype Byte = b: int | 0 <= b < 256

  type Blob = seq<Byte>
}
