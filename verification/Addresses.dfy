/** IP addresses. */
module Addresses {

  /** An address as its 32- or 128-bit number. */
  datatype Ip = V4(bits: nat) | V6(bits: nat)
}
