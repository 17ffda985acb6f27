/** The value stored under a key of an exception's context: a closed variant
    of six alternatives. Exactly one is active; the signed and unsigned 64-bit
    integers are distinct alternatives, so neither is ever stored as the other. */
module ExceptionValue {

  type Int64 = i: int | -0x8000_0000_0000_0000 <= i < 0x8000_0000_0000_0000

  type UInt64 = n: int | 0 <= n < 0x1_0000_0000_0000_0000

  /** Text of a double as the formatting library writes it. Shortest
      round-trip formatting never yields the empty text. */
  type DoubleText = s: string | |s| > 0 witness "0"

  /** The formatting library's rendering of a double, given by its bits. It is
      outside this model and is passed in. */
  type DoubleFormatter = bv64 -> DoubleText

  datatype Value =
    | Flag                    // the key exists and holds no value
    | Boolean(b: bool)
    | Signed(i: Int64)
    | Unsigned(u: UInt64)
    | Double(bits: bv64)
    | Str(s: string)

  /** The same number held as a signed and as an unsigned value gives two
      different values. This is documentation rather than proof work: it is
      the distinctness of two constructors, which needs no argument, and it
      records that the variant keeps `int64_t` and `uint64_t` apart. */
  lemma SignedUnsignedDistinct(n: nat)
    requires n < 0x8000_0000_0000_0000
    ensures Signed(n) != Unsigned(n)
  {
  }
}
