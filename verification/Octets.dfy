/** Bytes as numbers, and 16-bit fields in little-endian order. */
module Octets {

  type octet = x: nat | x < 0x100

  function Low(n: nat): octet {
    n % 0x100
  }

  function High(n: nat): octet {
    n / 0x100 % 0x100
  }

  lemma BothBytes(n: nat)
    requires n < 0x1_0000
    ensures Low(n) as int + High(n) as int * 0x100 == n
  {
  }
}
