/** The size parameter handed to the crypto library: the bit count `nbits`
    derived from the election prime p (standalone/verify.py line 51). */
module GroupSize {
  import opened ModArith

  /** Floor of the base-2 logarithm, the exact value of
      `int(math.log(n, 2))` when float rounding is ignored. */
  function Log2(n: nat): nat
    requires n >= 1
    decreases n
  {
    if n == 1 then 0 else 1 + Log2(n / 2)
  }

  /** Log2 is the unique e with 2^e <= n < 2^(e+1). */
  lemma {:induction false} Log2Bounds(n: nat)
    requires n >= 1
    ensures Pow(2, Log2(n)) <= n < Pow(2, Log2(n) + 1)
    decreases n
  {
    if n > 1 {
      Log2Bounds(n / 2);
    }
  }

  /** Python's `x & ~255` on unbounded two's-complement integers: the low
      eight bits are cleared, rounding towards minus infinity. */
  function ClearLowByte(x: int): (r: int)
    ensures r % 256 == 0
    ensures r <= x < r + 256
  {
    x - x % 256
  }

  /** `nbits = ((int(math.log(p, 2)) - 1) & ~255) + 256`, the bit length the
      library sizes the group and the proofs with. For a prime of at least
      two it is the least multiple of 256 above log2(p) - 1; for p = 1 the
      formula yields 0. */
  function NBits(p: nat): (nbits: nat)
    requires p >= 1
    ensures p == 1 ==> nbits == 0
    ensures p >= 2 ==> nbits % 256 == 0 && nbits >= 256
    ensures p >= 2 ==> Log2(p) - 1 < nbits <= Log2(p) + 255
    ensures p >= 2 ==> nbits - 256 <= Log2(p) - 1
    ensures p < Pow(2, nbits + 1)
  {
    var l := Log2(p);
    Log2Bounds(p);
    ClearLowBytePred(l);
    assert p >= 2 ==> l >= 1;
    var r := ClearLowByte(l - 1) + 256;
    PowMonotone(2, l + 1, r + 1);
    r
  }

  /** The low byte cleared from l - 1, for a natural l: -256 when l is 0,
      a natural otherwise. */
  lemma ClearLowBytePred(l: nat)
    ensures l == 0 ==> ClearLowByte(l - 1) == -256
    ensures l >= 1 ==> ClearLowByte(l - 1) >= 0
    ensures (ClearLowByte(l - 1) + 256) % 256 == 0
  {
    var r := ClearLowByte(l - 1);
    var k := r / 256;
    assert r == 256 * k;
  }
}
