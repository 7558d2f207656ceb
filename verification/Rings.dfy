/** Positions in an array that is used as a ring. */
module Rings {
  /** The slot x places round a ring of size slots, for x below twice the size. */
  function Wrap(x: int, size: int): int {
    if x >= size then x - size else x
  }

  /** The slot after slot q. */
  function After(q: int, size: int): int
    requires size > 0
  {
    (q + 1) % size
  }

  lemma AfterWrap(q: int, size: int)
    requires 0 <= q < size
    ensures After(q, size) == Wrap(q + 1, size)
  {
    WrapMod(q + 1, size);
  }

  lemma WrapMod(x: int, size: int)
    requires 0 <= x < 2 * size
    ensures x % size == Wrap(x, size) && 0 <= Wrap(x, size) < size
  {
    if x >= size {
      assert x == 1 * size + (x - size);
      assert (x - size) % size == x - size;
    }
  }
}
