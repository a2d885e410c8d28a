/** Bytes as unsigned octets. Java's `byte` is signed, but every consumer here (DER decoding,
    Base64) reads it as eight bits, so the unsigned view loses nothing. */
module Octets {

  type byte = b: int | 0 <= b < 256

  type Bytes = seq<byte>
}
