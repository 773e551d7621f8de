/**
 * The C++ integer types the console uses, with their wrap-around written
 * out: Dafny's integers are unbounded.
 */
module Widths {
  /** `unsigned short` */
  type U16 = n: int | 0 <= n < 0x1_0000
  /** `short` (the coordinate type of a console `COORD`) */
  type I16 = n: int | -0x8000 <= n < 0x8000
  /** `unsigned int` */
  type U32 = n: int | 0 <= n < 0x1_0000_0000

  const SHORT_RANGE := 0x1_0000

  /** The conversion `short(n)`: the value of the signed 16-bit range congruent to `n`. */
  function Short(n: int): (r: I16)
    ensures (n - r) % SHORT_RANGE == 0
    ensures -0x8000 <= n < 0x8000 ==> r == n
  {
    var m := n % SHORT_RANGE;
    if m < 0x8000 then m else m - SHORT_RANGE
  }

  /** Conversion to `unsigned short`, as in an assignment, or an increment that overflows. */
  function UShort(n: int): (r: U16)
    ensures (n - r) % SHORT_RANGE == 0
    ensures 0 <= n < SHORT_RANGE ==> r == n
  {
    n % SHORT_RANGE
  }

  /** Two integers less than 2^16 apart that convert to the same `short` are equal. */
  lemma ShortInjective(a: int, b: int)
    requires -SHORT_RANGE < a - b < SHORT_RANGE
    requires Short(a) == Short(b)
    ensures a == b
  {
    assert a % SHORT_RANGE == b % SHORT_RANGE;
    assert a == SHORT_RANGE * (a / SHORT_RANGE) + a % SHORT_RANGE;
    assert b == SHORT_RANGE * (b / SHORT_RANGE) + b % SHORT_RANGE;
    var q := a / SHORT_RANGE - b / SHORT_RANGE;
    assert a - b == SHORT_RANGE * q;
  }

  /** Incrementing an `unsigned short` that counts something wraps like the count itself. */
  lemma UShortSucc(k: int)
    ensures UShort(UShort(k) + 1) == UShort(k + 1)
  {
    var q := k / SHORT_RANGE;
    assert k == SHORT_RANGE * q + UShort(k);
    assert k + 1 == SHORT_RANGE * q + (UShort(k) + 1);
  }
}
