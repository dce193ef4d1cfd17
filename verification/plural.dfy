/**
  Agreement of the Russian noun "год" (year) with a number, as used to print
  the winery's age. Python's `%` with a positive divisor is floored, so its
  remainder lies in [0, divisor); Dafny's `%` on `int` is Euclidean and agrees
  with it for positive divisors, so the rule is modelled on all of `int`,
  negative numbers included, exactly as the program computes it.
 */
module Plural {

  const One: string := "год"
  const Few: string := "года"
  const Many: string := "лет"

  /** `n % 100` falls in the exception range `range(11, 21)`. */
  predicate IsTeen(n: int) {
    11 <= n % 100 <= 20
  }

  /** The word for "year" that agrees with `n`. */
  function YearWord(n: int): (w: string)
    ensures w == One || w == Few || w == Many
    ensures IsTeen(n) ==> w == Many
    ensures w == One <==> n % 10 == 1 && !IsTeen(n)
    ensures w == Few <==> 2 <= n % 10 <= 4 && !IsTeen(n)
    ensures w == Many <==> IsTeen(n) || !(1 <= n % 10 <= 4)
  {
    var lastDigit := n % 10;
    if IsTeen(n) then Many
    else if lastDigit == 1 then One
    else if 2 <= lastDigit <= 4 then Few
    else Many
  }

  /** The last digit of `n` is the last digit of its last two digits. */
  lemma LastDigitOfLastTwo(n: int)
    ensures n % 10 == (n % 100) % 10
  {
    var q := n / 100;
    var r := n % 100;
    assert n == 100 * q + r;
    assert n == 10 * (10 * q + r / 10) + r % 10;
  }

  /** The word depends only on the last two digits: it repeats every hundred. */
  lemma {:induction false} YearWordPeriodic(n: int, k: int)
    ensures YearWord(n + 100 * k) == YearWord(n)
  {
    var m := n + 100 * k;
    assert m % 100 == n % 100 by {
      assert m == 100 * (n / 100 + k) + n % 100;
    }
    LastDigitOfLastTwo(n);
    LastDigitOfLastTwo(m);
  }

  /**
    The plural categories Unicode CLDR assigns to Russian integers, an
    independent statement of the same grammar rule:
      one  when i % 10 = 1 and i % 100 != 11;
      few  when i % 10 = 2..4 and i % 100 is not 12..14;
      many otherwise.
   */
  datatype PluralCategory = OneForm | FewForm | ManyForm

  function CldrCategory(i: nat): PluralCategory {
    if i % 10 == 1 && i % 100 != 11 then OneForm
    else if 2 <= i % 10 <= 4 && !(12 <= i % 100 <= 14) then FewForm
    else ManyForm
  }

  function FormOfYear(c: PluralCategory): string {
    match c
    case OneForm => One
    case FewForm => Few
    case ManyForm => Many
  }

  /**
    For every non-negative number the program's rule (teens 11..20 first, then
    the last digit) picks the same word as the CLDR categories. The teens
    15..20 end in 5..9 or 0, so widening the exception to them changes nothing.
   */
  lemma YearWordMatchesCldr(n: nat)
    ensures YearWord(n) == FormOfYear(CldrCategory(n))
  {
    LastDigitOfLastTwo(n);
  }

  /**
    For negative numbers the floored remainder makes the two rules part ways:
    the program says "лет" for -1, while CLDR, which reads the absolute value,
    would say "год".
   */
  lemma NegativeDivergesFromCldr()
    ensures YearWord(-1) == Many
    ensures FormOfYear(CldrCategory(1)) == One
  {
  }
}
