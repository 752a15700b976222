/** Positional numerals with a fixed number of digits, most significant first. */
module Numerals {
  function Power(base: nat, k: nat): (p: nat)
  {
    if k == 0 then 1 else base * Power(base, k - 1)
  }

  /** The lowest `n` digits of a value, each spelled by `letter`. */
  function Render(letter: nat -> char, base: nat, value: nat, n: nat): (s: string)
    requires base > 0
    ensures |s| == n
    decreases n, value
  {
    if n == 0 then "" else Render(letter, base, value / base, n - 1) + [letter(value % base)]
  }

  /** Different digits are spelled differently. */
  ghost predicate Legible(letter: nat -> char, base: nat)
  {
    forall d: nat, e: nat :: d < base && e < base && letter(d) == letter(e) ==> d == e
  }

  lemma DivBelow(x: nat, base: nat, p: nat)
    requires base > 0 && x < base * p
    ensures x / base < p
  {
  }

  /** The value needs no more than `n` digits. */
  predicate Fits(base: nat, x: nat, n: nat)
    requires base > 0
    decreases n
  {
    if n == 0 then x == 0 else Fits(base, x / base, n - 1)
  }

  lemma {:induction false} FitsBelowPower(base: nat, x: nat, n: nat)
    requires base > 0 && x < Power(base, n)
    ensures Fits(base, x, n)
    decreases n
  {
    if n == 0 {
    } else {
      DivBelow(x, base, Power(base, n - 1));
      FitsBelowPower(base, x / base, n - 1);
    }
  }

  /** A numeral split before its last digit. */
  lemma LastDigit(letter: nat -> char, base: nat, x: nat, n: nat) returns (high: nat, low: nat)
    requires base > 0 && n > 0 && Fits(base, x, n)
    ensures Render(letter, base, x, n)[..n - 1] == Render(letter, base, high, n - 1)
    ensures Render(letter, base, x, n)[n - 1] == letter(low)
    ensures Fits(base, high, n - 1) && low < base && x == base * high + low
  {
    high, low := x / base, x % base;
    assert Render(letter, base, x, n) == Render(letter, base, high, n - 1) + [letter(low)];
  }

  /** Values that fit the digits are told apart by their numerals. */
  lemma {:induction false} RenderInjective(letter: nat -> char, base: nat, x: nat, y: nat, n: nat)
    requires base > 0 && Legible(letter, base)
    requires Fits(base, x, n) && Fits(base, y, n)
    requires Render(letter, base, x, n) == Render(letter, base, y, n)
    ensures x == y
    decreases n
  {
    if n == 0 {
    } else {
      var a, d := LastDigit(letter, base, x, n);
      var b, e := LastDigit(letter, base, y, n);
      RenderInjective(letter, base, a, b, n - 1);
    }
  }

  /** Bit `b` of a number. */
  predicate HasBit(x: nat, b: nat)
  {
    if b == 0 then x % 2 == 1 else HasBit(x / 2, b - 1)
  }

  /** The `i`-th digit from the right. */
  lemma {:induction false} DigitFromRight(letter: nat -> char, base: nat, value: nat, n: nat, i: nat)
    requires base > 0 && i < n
    ensures Render(letter, base, value, n)[n - 1 - i] == letter(Shifted(base, value, i) % base)
    decreases i
  {
    if i == 0 {
    } else {
      DigitFromRight(letter, base, value / base, n - 1, i - 1);
    }
  }

  /** The value without its last `i` digits. */
  function Shifted(base: nat, value: nat, i: nat): (r: nat)
    requires base > 0
    decreases i
  {
    if i == 0 then value else Shifted(base, value / base, i - 1)
  }
}
