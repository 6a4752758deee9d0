/** Bytes and the numbers below 256. */
module Octets {

  /** The byte with a value, found by counting. */
  lemma {:induction false} ByteHolding(n: nat) returns (b: bv8)
    requires n < 256
    ensures b as int == n
  {
    if n == 0 {
      b := 0;
    } else {
      var c := ByteHolding(n - 1);
      NextByte(c);
      b := c + 1;
    }
  }

  lemma NextByte(b: bv8)
    requires b < 255
    ensures (b + 1) as int == b as int + 1
  {
  }

  function Narrow(n: nat): bv8
    requires n < 256
  {
    n as bv8
  }

  lemma NarrowBack(n: nat)
    requires n < 256
    ensures Narrow(n) as int == n
  {
    hide Narrow;
    var b := ByteHolding(n);
    NarrowTo(n, b);
  }

  lemma NarrowTo(n: nat, b: bv8)
    requires b as int == n
    ensures n < 256 && Narrow(n) == b
  {
  }
}
