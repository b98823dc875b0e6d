/** Bytes that a program treats as bits: hash input and output, base64. */
module Octets {
  type Byte = bv8
  type Bytes = seq<Byte>
}

/** Bytes that a program treats as numbers: text, WebSocket frames, SHA-1. */
module Numbers {
  type Byte = b: nat | b < 256
  type Bytes = seq<Byte>
}
