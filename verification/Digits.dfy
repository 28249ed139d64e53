/** Decimal numerals and their values. */
module Digits {

  predicate IsDigit(c: char) { '0' <= c <= '9' }

  function DigitsValue(s: string): nat
    requires forall c <- s :: IsDigit(c)
  {
    if s == [] then 0
    else
      var last := s[|s| - 1];
      assert IsDigit(last) by { assert last in s; }
      10 * DigitsValue(s[..|s| - 1]) + (last as int - '0' as int)
  }

  function Decimal(n: nat): (s: string)
    ensures s != "" && forall c <- s :: IsDigit(c)
    ensures DigitsValue(s) == n
  {
    var digit := ['0' + (n % 10) as char];
    if n < 10 then
      assert digit[..0] == "";
      digit
    else
      var init := Decimal(n / 10);
      assert (init + digit)[..|init|] == init;
      init + digit
  }

  lemma Numerals()
    ensures Decimal(7) == "7" && Decimal(1809) == "1809"
  {
    assert Decimal(18) == "18" && Decimal(180) == "180";
  }
}
