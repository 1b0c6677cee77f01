/** Facts about products, Euclidean division and remainders that the matrix
    tiling and the sprite grid both rest on. */
module Arithmetic {

  lemma MulSign(d: int, c: int)
    requires c >= 1
    ensures d >= 0 ==> d * c >= 0
    ensures d >= 1 ==> d * c >= c
    ensures d <= -1 ==> d * c <= -c
  {
  }

  lemma MulLe(p: int, q: int, c: nat)
    requires p <= q
    ensures p * c <= q * c
  {
  }

  /** Euclidean division has one quotient and one remainder. */
  lemma DivModUnique(z: int, c: int, q: int, r: int)
    requires c >= 1 && z == q * c + r && 0 <= r < c
    ensures z / c == q && z % c == r
  {
    var q', r' := z / c, z % c;
    assert z == q' * c + r';
    var d := q - q';
    assert d * c == r' - r;
    MulSign(d, c);
  }

  /** Below the divisor, the quotient is 0 and the remainder the number itself. */
  lemma SmallDivMod(z: nat, c: nat)
    requires c >= 1
    ensures z < c ==> z / c == 0 && z % c == z
  {
    if z < c {
      DivModUnique(z, c, 0, z);
    }
  }

  lemma ModAddOnce(z: nat, c: nat)
    requires c >= 1
    ensures (z + c) % c == z % c
  {
    DivModUnique(z + c, c, z / c + 1, z % c);
  }

  /** Adding whole multiples of `c` leaves the remainder alone. */
  lemma {:induction false} ModShift(x: nat, c: nat, i: nat)
    requires c >= 1
    ensures (x + i * c) % c == x % c
    decreases i
  {
    if i > 0 {
      var z := x + (i - 1) * c;
      ModShift(x, c, i - 1);
      assert x + i * c == z + c;
      ModAddOnce(z, c);
    }
  }
}
