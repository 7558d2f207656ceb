/** 31-bit wrapping packet sequence numbers: the static inline functions of CSeqNo.

    A number on the wire is a value in 0..2^31-1.  The proofs of every other module count packets with
    unbounded "logical" integers; ToWire maps a logical number to its wire form.  WindowAgreement is the
    one lemma that connects the two: inside a window narrower than 2^30-1 the wrapping functions are
    ordinary integer arithmetic. */
module SeqNo {
  const TH: int := 0x3FFF_FFFF
  const MAX: int := 0x7FFF_FFFF
  const MODULUS: int := 0x8000_0000

  type Wire = s: int | 0 <= s <= 0x7FFF_FFFF

  function Abs(x: int): int {
    if x < 0 then -x else x
  }

  /** The value a 32-bit two's-complement register holds after computing v. */
  function Int32(v: int): int {
    (v + 0x8000_0000) % 0x1_0000_0000 - 0x8000_0000
  }

  function Cmp(seq1: int, seq2: int): int {
    if Abs(seq1 - seq2) < TH then seq1 - seq2 else seq2 - seq1
  }

  function Len(seq1: Wire, seq2: Wire): int {
    if seq1 <= seq2 then Int32(seq2 - seq1 + 1) else Int32(seq2 - seq1 + MAX + 2)
  }

  function Off(seq1: int, seq2: int): int {
    if Abs(seq1 - seq2) < TH then seq2 - seq1
    else if seq1 < seq2 then seq2 - seq1 - MAX - 1
    else seq2 - seq1 + MAX + 1
  }

  function Inc(n: Wire): Wire {
    if n == MAX then 0 else n + 1
  }

  function Dec(n: Wire): Wire {
    if n == 0 then MAX else n - 1
  }

  function IncBy(n: Wire, inc: int): int {
    if MAX - n >= inc then n + inc else n - MAX + inc - 1
  }

  function ToWire(x: int): Wire {
    x % MODULUS
  }

  predicate Near(x: int, y: int) {
    -TH < x - y < TH
  }

  /** Inside the window the wrapping functions are the integer ones. */
  lemma WindowAgreement(x: int, y: int)
    requires Near(x, y)
    ensures Off(ToWire(x), ToWire(y)) == y - x
    ensures Cmp(ToWire(x), ToWire(y)) < 0 <==> x < y
    ensures Cmp(ToWire(x), ToWire(y)) == 0 <==> x == y
    ensures Cmp(ToWire(x), ToWire(y)) > 0 <==> x > y
    ensures ToWire(x) == ToWire(y) <==> x == y
    ensures x <= y ==> Len(ToWire(x), ToWire(y)) == y - x + 1
    ensures 0 <= y - x ==> IncBy(ToWire(x), y - x) == ToWire(y)
  {
    var q, r := x / MODULUS, x / MODULUS - y / MODULUS;
    assert x == MODULUS * (x / MODULUS) + ToWire(x);
    assert y == MODULUS * (y / MODULUS) + ToWire(y);
    assert ToWire(x) - ToWire(y) == x - y - MODULUS * r;
    assert -1 <= r <= 1;
  }

  lemma Neighbours(x: int)
    ensures Inc(ToWire(x)) == ToWire(x + 1)
    ensures Dec(ToWire(x)) == ToWire(x - 1)
  {
  }

  /** seqlen counts a closed interval of any length that fits in 32 bits; one number longer it overflows. */
  lemma LenExact(x: int, y: int)
    requires x <= y < x + MODULUS
    ensures Len(ToWire(x), ToWire(y)) == y - x + 1 <==> y - x < MAX
  {
    assert x == MODULUS * (x / MODULUS) + ToWire(x);
    assert y == MODULUS * (y / MODULUS) + ToWire(y);
    assert 0 <= y / MODULUS - x / MODULUS <= 1;
    if ToWire(x) <= ToWire(y) {
      assert y / MODULUS == x / MODULUS;
    } else {
      assert y / MODULUS == x / MODULUS + 1;
    }
  }

  /** seqcmp is a strict total order on any set of numbers that fits in one window. */
  lemma WindowOrder(x: int, y: int, z: int)
    requires Near(x, y) && Near(y, z) && Near(x, z)
    ensures !(Cmp(ToWire(x), ToWire(x)) < 0)
    ensures Cmp(ToWire(x), ToWire(y)) < 0 && Cmp(ToWire(y), ToWire(z)) < 0 ==> Cmp(ToWire(x), ToWire(z)) < 0
    ensures Cmp(ToWire(x), ToWire(y)) < 0 || ToWire(x) == ToWire(y) || Cmp(ToWire(y), ToWire(x)) < 0
    ensures Off(ToWire(x), ToWire(y)) + Off(ToWire(y), ToWire(z)) == Off(ToWire(x), ToWire(z))
  {
    WindowAgreement(x, x);
    WindowAgreement(x, y);
    WindowAgreement(y, z);
    WindowAgreement(x, z);
    WindowAgreement(y, x);
  }

  /** Stepping from a by the offset to b reaches b exactly when the step does not go backwards across zero. */
  lemma IncByOff(a: Wire, b: Wire)
    ensures IncBy(a, Off(a, b)) == b <==> !(a < b && b - a >= TH)
  {
  }

  /** The backward step across zero that the increment cannot take. */
  lemma IncByOffFails()
    ensures IncBy(0, Off(0, MAX)) != MAX
  {
  }

  /** For an initial number of 0 the program starts its counters at -1, which is no wire number.  In every comparison with
      a number of the window, except the one before 0 itself, that acts as the predecessor of 0. */
  lemma IsnZero(x: int)
    requires Near(x, -1) && x != -1
    ensures Cmp(ToWire(x), -1) < 0 <==> x < -1
    ensures Cmp(ToWire(x), -1) > 0 <==> x > -1
    ensures Off(-1, ToWire(x)) == x - -1
  {
    assert x == MODULUS * (x / MODULUS) + ToWire(x);
    assert x / MODULUS == if x < 0 then -1 else 0;
  }
}
