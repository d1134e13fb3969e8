/** The 32-bit two's complement integers of the modelled programs. */
module Int32 {

  const MAX_INT: int := 0x7fff_ffff
  const MIN_INT: int := -0x8000_0000

  predicate IsInt(x: int) { MIN_INT <= x <= MAX_INT }

  /** The value of an overflowing operation. */
  function Wrap(x: int): (r: int)
    ensures IsInt(r)
    ensures IsInt(x) ==> r == x
  {
    (x + 0x8000_0000) % 0x1_0000_0000 - 0x8000_0000
  }

  /** Wrap-around by one modulus. */
  lemma WrapOnce(x: int)
    ensures MAX_INT < x <= 2 * MAX_INT ==> Wrap(x) == x - 0x1_0000_0000
    ensures -0x1_0000_0000 <= x < MIN_INT ==> Wrap(x) == x + 0x1_0000_0000
  {
  }
}
