/** Conversions between numbers below 256 and bytes, kept apart from the
    rest of the model so that the solver meets them in a small context. */
module ByteConversion {
  /** The byte that holds a number is the byte the number came from. */
  lemma ByteOf(n: nat, b: bv8)
    requires n == b as nat
    ensures n as bv8 == b
  {
  }

  /** Adding one to a byte below 255 adds one to its value. */
  lemma SuccByte(b: bv8)
    requires b as nat < 255
    ensures (b + 1) as nat == b as nat + 1
  {
  }

  /** A number below 256 survives the trip through a byte. */
  lemma {:induction false} ByteValue(r: nat)
    requires r < 256
    ensures (r as bv8) as nat == r
  {
    if r > 0 {
      ByteValue(r - 1);
      var b := (r - 1) as bv8;
      SuccByte(b);
      ByteOf(r, b + 1);
    }
  }

  /** A count below 256 is its own low byte. */
  lemma CountByte(n: nat)
    requires n < 256
    ensures (n % 256) as bv8 == n as bv8
  {
  }
}
