/** Bytes as numbers. */
module Octets {
  type octet = x: nat | x < 256
}
