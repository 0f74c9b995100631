/**
 * repr(s): the diagnostic text of a collection, `SortedFrozenSet()` when it is
 * empty and `SortedFrozenSet([e0, e1, ...])` otherwise, with each element in
 * Python's decimal notation.
 */
module Rendering {
  import SortedFrozenSets

  ghost predicate AllDigits(s: string) {
    forall i :: 0 <= i < |s| ==> '0' <= s[i] <= '9'
  }

  function DigitChar(d: nat): char
    requires d < 10
  {
    "0123456789"[d]
  }

  /** Decimal notation of a natural number: digits only, no leading zero. */
  function Digits(n: nat): (r: string)
    ensures |r| >= 1 && AllDigits(r)
    ensures |r| > 1 ==> r[0] != '0'
    decreases n
  {
    if n < 10 then [DigitChar(n)] else Digits(n / 10) + [DigitChar(n % 10)]
  }

  /** The number a string of decimal digits denotes. */
  function DigitsValue(s: string): nat
    requires AllDigits(s)
  {
    if s == [] then 0 else 10 * DigitsValue(s[..|s| - 1]) + (s[|s| - 1] as int - '0' as int)
  }

  /** Reading the decimal notation back gives the number. */
  lemma {:induction false} DigitsRoundTrip(n: nat)
    ensures DigitsValue(Digits(n)) == n
    decreases n
  {
    if n >= 10 {
      DigitsRoundTrip(n / 10);
      var d := Digits(n);
      assert d[..|d| - 1] == Digits(n / 10);
    }
  }

  /** Python's repr of an int: a minus sign for negatives, then the digits. */
  function Decimal(i: int): string {
    if i < 0 then "-" + Digits(-i) else Digits(i)
  }

  /** The elements in decimal, separated by a comma and a space. */
  function JoinDecimal(xs: seq<int>): string {
    if xs == [] then ""
    else if |xs| == 1 then Decimal(xs[0])
    else Decimal(xs[0]) + ", " + JoinDecimal(xs[1..])
  }

  /** repr(s). */
  function Repr(s: SortedFrozenSets.SortedFrozenSet): (r: string)
    ensures |r| >= 17 && r[..16] == "SortedFrozenSet(" && r[|r| - 1] == ')'
    ensures r == "SortedFrozenSet()" <==> s.items == []
  {
    if s.items == [] then
      "SortedFrozenSet()"
    else
      var r := "SortedFrozenSet([" + JoinDecimal(s.items) + "])";
      assert |r| > 17;
      r
  }
}
