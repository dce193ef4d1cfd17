/**
  One spreadsheet cell after the missing-value normalisation: a cell is either
  empty (`None` in the program), a piece of text, or a whole number. The module
  gives the two Python behaviours the catalog relies on: truthiness (`x or ''`,
  `if x`) and rendering with `str()` inside an f-string.
 */
module Cells {

  datatype Cell = Absent | Str(s: string) | Num(n: int)

  /** Python truthiness of a normalised cell: `None`, `''` and `0` are falsy. */
  predicate Truthy(c: Cell) {
    match c
    case Absent => false
    case Str(s) => s != ""
    case Num(n) => n != 0
  }

  predicate IsDigit(ch: char) {
    '0' <= ch <= '9'
  }

  /** The numeric value of a run of decimal digits, most significant first. */
  function DigitsValue(s: string): nat
    requires forall i :: 0 <= i < |s| ==> IsDigit(s[i])
  {
    if s == [] then 0
    else
      assert IsDigit(s[|s| - 1]);
      DigitsValue(s[..|s| - 1]) * 10 + (s[|s| - 1] as int - '0' as int)
  }

  /** Python's `str()` of a non-negative integer: its decimal digits. */
  function Decimal(n: nat): (r: string)
    ensures r != []
    ensures forall i :: 0 <= i < |r| ==> IsDigit(r[i])
    ensures r[0] == '0' ==> n == 0 && r == "0"
  {
    var d := ('0' as int + n % 10) as char;
    if n < 10 then [d] else Decimal(n / 10) + [d]
  }

  /** Reading the digits back gives the number: `int(str(n)) == n`. */
  lemma {:induction false} DecimalRoundTrip(n: nat)
    ensures DigitsValue(Decimal(n)) == n
  {
    var r := Decimal(n);
    if n >= 10 {
      DecimalRoundTrip(n / 10);
      assert r[..|r| - 1] == Decimal(n / 10);
    }
  }

  /**
    Python's `str()` of a cell, as an f-string renders it. A number reads back
    as its value: its digits alone when it is non-negative, a minus sign and
    the digits of its magnitude otherwise, never with a leading zero.
   */
  function Text(c: Cell): (r: string)
    ensures c.Str? ==> r == c.s
    ensures c.Num? ==> r != [] && (c.n < 0 <==> r[0] == '-')
    ensures c.Num? && c.n >= 0 ==>
              (forall i :: 0 <= i < |r| ==> IsDigit(r[i])) && DigitsValue(r) == c.n
    ensures c.Num? && c.n < 0 ==>
              (forall i :: 1 <= i < |r| ==> IsDigit(r[i])) && DigitsValue(r[1..]) == -c.n
    ensures c.Num? && c.n >= 0 ==> (r[0] == '0' ==> r == "0")
    ensures c.Num? && c.n < 0 ==> |r| >= 2 && r[1] != '0'
  {
    match c
    case Absent => "None"
    case Str(s) => s
    case Num(n) =>
      if n < 0 then
        DecimalRoundTrip(-n);
        var r := "-" + Decimal(-n);
        assert r[1..] == Decimal(-n);
        r
      else
        DecimalRoundTrip(n);
        Decimal(n)
  }
}
