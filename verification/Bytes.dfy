/** A byte and its number. */
module Bytes {
  lemma IntByteInt(n: nat)
    requires n < 256
    ensures (n as bv8) as int == n
  {}
}
