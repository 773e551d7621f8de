/**
 * The control sequence SELECT GRAPHIC RENDITION of ECMA-48 (section 8.3.117):
 * CSI (here `ESC [`), a decimal parameter, and the final byte `m`.
 */
module Sgr {
  import opened Wrappers

  const ESC: char := '\U{1B}'

  predicate IsDigit(ch: char)
  {
    '0' <= ch <= '9'
  }

  predicate AllDigits(s: string)
  {
    forall i :: 0 <= i < |s| ==> IsDigit(s[i])
  }

  function Digit(d: int): (ch: char)
    requires 0 <= d < 10
    ensures IsDigit(ch)
  {
    ('0' as int + d) as char
  }

  /** The number a string of decimal digits denotes. */
  function Value(ds: string): nat
    requires AllDigits(ds)
  {
    if ds == [] then 0 else 10 * Value(ds[..|ds| - 1]) + (ds[|ds| - 1] as int - '0' as int)
  }

  /** The decimal rendering of `n`, as an `ostream` prints an `unsigned int`. */
  function Decimal(n: nat): (ds: string)
    ensures |ds| >= 1 && AllDigits(ds)
    ensures Value(ds) == n
    ensures ds[0] == '0' ==> n == 0 && |ds| == 1
    decreases n
  {
    if n < 10 then [Digit(n)]
    else
      var prefix := Decimal(n / 10);
      var ds := prefix + [Digit(n % 10)];
      assert ds[..|ds| - 1] == prefix;
      ds
  }

  /** What the console writes for `set_color`: `ESC [`, the decimal code, `m`. */
  function Sequence(n: nat): string
  {
    [ESC, '['] + Decimal(n) + ['m']
  }

  /** How a terminal reads an SGR sequence with one parameter (an empty parameter means 0). */
  function Parse(s: string): Option<nat>
  {
    if |s| >= 3 && s[0] == ESC && s[1] == '[' && s[|s| - 1] == 'm' && AllDigits(s[2..|s| - 1])
    then Some(Value(s[2..|s| - 1]))
    else None
  }

  /** The terminal reads back exactly the code the console sent. */
  lemma ParseSequence(n: nat)
    ensures Parse(Sequence(n)) == Some(n)
  {
    var s := Sequence(n);
    assert s[2..|s| - 1] == Decimal(n);
  }

  /** Different codes give different sequences, and every sequence is at least four characters long. */
  lemma SequenceInjective(m: nat, n: nat)
    ensures Sequence(m) == Sequence(n) ==> m == n
    ensures |Sequence(n)| >= 4
  {
    ParseSequence(m);
    ParseSequence(n);
  }
}
