/** Unbounded modular arithmetic: the integer power, Python's three-argument
    `pow(b, e, m)` (square-and-multiply), and the algebra the decryption
    proofs rely on. */
module ModArith {

  /** b raised to e, with no reduction. */
  function Pow(b: nat, e: nat): (r: nat)
    ensures b >= 1 ==> r >= 1
  {
    if e == 0 then 1 else b * Pow(b, e - 1)
  }

  /** `pow(b, e, m)`: exponentiation by squaring, reducing mod m at every
      step. Its contract says it agrees with the unreduced power. */
  function ModPow(b: nat, e: nat, m: nat): (r: nat)
    requires m > 0
    ensures r < m
    ensures r == Pow(b, e) % m
    decreases e
  {
    if e == 0 then 1 % m
    else if e % 2 == 0 then
      var h := ModPow(b, e / 2, m);
      PowAdd(b, e / 2, e / 2);
      MulMod(Pow(b, e / 2), Pow(b, e / 2), m);
      (h * h) % m
    else
      var h := ModPow(b, e - 1, m);
      MulMod(b, Pow(b, e - 1), m);
      ModOfMod(b, m);
      ((b % m) * h) % m
  }

  /** The residue is determined by any decomposition a = d*m + r with 0 <= r < m. */
  lemma ModUnique(a: int, d: int, r: int, m: int)
    requires m > 0 && 0 <= r < m && a == d * m + r
    ensures a % m == r
    ensures a / m == d
  {
    var d0, r0 := a / m, a % m;
    assert (d - d0) * m == r0 - r;
    MulBound(d - d0, m);
  }

  lemma MulBound(e: int, m: int)
    requires m > 0
    ensures e >= 1 ==> e * m >= m
    ensures e <= -1 ==> e * m <= -m
  {
    if e >= 1 {
      assert e * m == m + (e - 1) * m;
    } else if e <= -1 {
      assert e * m == -m + (e + 1) * m;
    }
  }

  /** Adding a multiple of m does not change the residue. */
  lemma ModAddMultiple(k: int, y: int, m: int)
    requires m > 0
    ensures (k * m + y) % m == y % m
  {
    var q, r := y / m, y % m;
    assert k * m + y == (k + q) * m + r;
    ModUnique(k * m + y, k + q, r, m);
  }

  lemma ModOfMod(a: nat, m: nat)
    requires m > 0
    ensures (a % m) % m == a % m
  {
  }

  /** A larger exponent gives a power at least as large, for bases >= 1. */
  lemma {:induction false} PowMonotone(b: nat, e1: nat, e2: nat)
    requires b >= 1 && e1 <= e2
    ensures Pow(b, e1) <= Pow(b, e2)
    decreases e2
  {
    if e1 < e2 {
      PowMonotone(b, e1, e2 - 1);
      var x := Pow(b, e2 - 1);
      assert Pow(b, e2) == b * x;
      MulLessEq(x, 1, b);
    }
  }

  /** Reducing the factors of a product mod m early gives the same residue. */
  lemma MulMod(a: nat, b: nat, m: nat)
    ensures m > 0 ==> (a * b) % m == ((a % m) * (b % m)) % m
  {
    if m > 0 {
      var qa, ra := a / m, a % m;
      var qb, rb := b / m, b % m;
      ProductOfDivMod(a, b, qa, ra, m);
      ProductOfDivMod(b, ra, qb, rb, m);
      assert (a * b) % m == (ra * b) % m;
      assert (b * ra) % m == (rb * ra) % m;
    }
  }

  /** Replacing the left factor by its residue keeps the product's residue. */
  lemma ProductOfDivMod(a: int, b: int, qa: int, ra: int, m: int)
    requires m > 0 && a == qa * m + ra
    ensures (a * b) % m == (ra * b) % m
  {
    SplitProduct(qa, m, ra, b);
    ModAddMultiple(qa * b, ra * b, m);
  }

  lemma MulLessEq(a: int, x: int, y: int)
    requires a >= 0 && x <= y
    ensures a * x <= a * y
  {
    assert a * y - a * x == a * (y - x);
  }

  lemma MulAssocInt(a: int, b: int, c: int)
    ensures a * (b * c) == (a * b) * c
  {
  }

  lemma MulSucc(a: int, b: int)
    ensures (a + 1) * b == b + a * b
  {
  }

  /** (x*m + r) * y == (x*y)*m + r*y, for the one product it is needed on. */
  lemma SplitProduct(x: int, m: int, r: int, y: int)
    ensures (x * m + r) * y == (x * y) * m + r * y
  {
  }

  /** Reducing only the right factor early gives the same residue, for a
      left factor of either sign. */
  lemma MulModRight(a: int, b: nat, m: nat)
    requires m > 0
    ensures (a * (b % m)) % m == (a * b) % m
  {
    ProductOfDivMod(b, a, b / m, b % m, m);
    assert b * a == a * b && (b % m) * a == a * (b % m);
  }

  lemma {:induction false} PowAdd(b: nat, e1: nat, e2: nat)
    ensures Pow(b, e1 + e2) == Pow(b, e1) * Pow(b, e2)
    decreases e1
  {
    if e1 > 0 {
      var x := Pow(b, e1 - 1);
      PowAdd(b, e1 - 1, e2);
      assert Pow(b, e1 + e2) == b * Pow(b, e1 - 1 + e2);
      assert Pow(b, e1) == b * x;
      MulAssocInt(b, x, Pow(b, e2));
    }
  }

  lemma {:induction false} PowMul(b: nat, e1: nat, e2: nat)
    ensures Pow(b, e1 * e2) == Pow(Pow(b, e1), e2)
    decreases e2
  {
    if e2 > 0 {
      PowMul(b, e1, e2 - 1);
      assert e1 * e2 == e1 + e1 * (e2 - 1);
      PowAdd(b, e1, e1 * (e2 - 1));
    }
  }

  /** Reducing the base mod m before exponentiating gives the same residue. */
  lemma {:induction false} PowMod(b: nat, e: nat, m: nat)
    requires m > 0
    ensures Pow(b % m, e) % m == Pow(b, e) % m
    decreases e
  {
    if e > 0 {
      PowMod(b, e - 1, m);
      calc {
        Pow(b % m, e) % m;
        ((b % m) * Pow(b % m, e - 1)) % m;
        { MulMod(b % m, Pow(b % m, e - 1), m); ModOfMod(b, m); }
        ((b % m) * (Pow(b % m, e - 1) % m)) % m;
        ((b % m) * (Pow(b, e - 1) % m)) % m;
        { MulMod(b, Pow(b, e - 1), m); }
        (b * Pow(b, e - 1)) % m;
      }
    }
  }

  /** Completeness of one Chaum-Pedersen equation: if commit = base^w and
      pub = base^x (both mod m) and the response is t = w + c*x, then
      base^t = commit * pub^c (mod m). */
  lemma ExponentEquation(base: nat, w: nat, x: nat, c: nat, t: nat, commit: nat, pub: nat, m: nat)
    requires m > 0 && t == w + c * x
    requires commit % m == Pow(base, w) % m
    requires pub % m == Pow(base, x) % m
    ensures ModPow(base, t, m) == (commit * ModPow(pub, c, m)) % m
  {
    var bw, bx := Pow(base, w), Pow(base, x);
    ExponentSplit(base, w, x, c, t);
    ResidueProduct(commit, bw, pub, bx, c, m);
  }

  /** base^(w + c*x) = base^w * (base^x)^c. */
  lemma ExponentSplit(base: nat, w: nat, x: nat, c: nat, t: nat)
    requires t == w + c * x
    ensures Pow(base, t) == Pow(base, w) * Pow(Pow(base, x), c)
  {
    PowAdd(base, w, x * c);
    PowMul(base, x, c);
    assert x * c == c * x;
  }

  /** Replacing the factors of commit * pub^c by congruent ones keeps the
      residue. */
  lemma ResidueProduct(commit: nat, bw: nat, pub: nat, bx: nat, c: nat, m: nat)
    requires m > 0
    requires commit % m == bw % m && pub % m == bx % m
    ensures (commit * ModPow(pub, c, m)) % m == (bw * Pow(bx, c)) % m
  {
    PowMod(pub, c, m);
    PowMod(bx, c, m);
    var r := Pow(pub, c) % m;
    assert r == Pow(bx, c) % m;
    MulMod(commit, r, m);
    ModOfMod(Pow(pub, c), m);
    MulMod(bw, Pow(bx, c), m);
  }
}
