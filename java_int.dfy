/**
 * Java's 32-bit `int` arithmetic, written out: narrowing to 32 bits
 * (two's complement wrap-around) and division that truncates toward zero.
 * Dafny's own `/` and `%` are Euclidean, so they are not used directly on
 * values that can be negative.
 */
module JavaInt {

  const MinInt: int := -0x8000_0000
  const MaxInt: int := 0x7fff_ffff
  const Modulus: int := 0x1_0000_0000

  predicate InRange(x: int) {
    MinInt <= x <= MaxInt
  }

  /** The value a Java `int` holds after an `int` operation or an `(int)` cast of a wider value. */
  function Wrap(x: int): (r: int)
    ensures InRange(r)
    ensures (x - r) % Modulus == 0
  {
    var m := (x - MinInt) % Modulus;
    m + MinInt
  }

  lemma WrapInRange(x: int)
    requires InRange(x)
    ensures Wrap(x) == x
  {
    var m := (x - MinInt) % Modulus;
    assert 0 <= x - MinInt < Modulus;
    assert m == x - MinInt;
  }

  /** Java's `/` on integers: the quotient rounded toward zero. */
  function Quot(a: int, b: int): (q: int)
    requires b != 0
    ensures b > 0 && a >= 0 ==> q == a / b
  {
    if (a >= 0) == (b > 0) then
      (if a >= 0 then a / b else (-a) / (-b))
    else
      -((if a >= 0 then a else -a) / (if b > 0 then b else -b))
  }

  /** Java's `%` on integers: the remainder takes the sign of the dividend. */
  function Rem(a: int, b: int): (r: int)
    requires b != 0
    ensures a == Quot(a, b) * b + r
    ensures a >= 0 ==> 0 <= r < (if b > 0 then b else -b)
    ensures a < 0 ==> -(if b > 0 then b else -b) < r <= 0
  {
    a - Quot(a, b) * b
  }

  /** Halving truncates toward zero: the result is within one half of the exact value. */
  lemma QuotTwo(a: int)
    ensures a >= 0 ==> a - 1 <= 2 * Quot(a, 2) <= a
    ensures a < 0 ==> a <= 2 * Quot(a, 2) <= a + 1
  {
  }

  /** Narrowing after each `+=` is the same as narrowing once at the end. */
  lemma WrapAdd(a: int, b: int)
    ensures Wrap(Wrap(a) + b) == Wrap(a + b)
  {
  }
}
