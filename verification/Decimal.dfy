/** Decimal numerals, as `strconv.FormatUint` writes them and `strconv.ParseUint` reads them. */
module Decimal {
  import opened Wrappers

  predicate IsDigit(c: char) { '0' <= c <= '9' }

  predicate Numeral(s: string) { s != [] && forall i :: 0 <= i < |s| ==> IsDigit(s[i]) }

  function Digits(n: nat): (s: string)
    ensures Numeral(s)
  {
    var last := [(n % 10 + '0' as int) as char];
    if n < 10 then last else Digits(n / 10) + last
  }

  function Value(s: string): nat
    requires forall i :: 0 <= i < |s| ==> IsDigit(s[i])
  {
    if s == [] then 0
    else
      assert IsDigit(s[|s| - 1]);
      Value(s[..|s| - 1]) * 10 + (s[|s| - 1] as int - '0' as int)
  }

  function ParseUint(s: string, max: nat): Option<nat> {
    if Numeral(s) && Value(s) <= max then Some(Value(s)) else None
  }

  /** Reading what was written gives the number back, unless it is above the limit. */
  lemma {:induction false} ParseDigits(n: nat, max: nat)
    ensures ParseUint(Digits(n), max) == if n <= max then Some(n) else None
  {
    DigitsValue(n);
  }

  lemma {:induction false} DigitsValue(n: nat)
    ensures Value(Digits(n)) == n
  {
    var last := [(n % 10 + '0' as int) as char];
    if n < 10 {
      assert Digits(n) == last && last[..0] == [];
    } else {
      DigitsValue(n / 10);
      var s := Digits(n);
      assert s == Digits(n / 10) + last;
      assert s[..|s| - 1] == Digits(n / 10);
    }
  }
}
