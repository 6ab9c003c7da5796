/** Decimal numerals, as streaming an int prints them and strtoull reads them. */
module Decimal {
  predicate IsDigit(ch: char) { '0' <= ch <= '9' }

  lemma DigitsListed(ch: char)
    ensures IsDigit(ch) <==> ch in {'0', '1', '2', '3', '4', '5', '6', '7', '8', '9'}
  {
  }

  predicate AllDigits(s: string) { forall ch <- s :: IsDigit(ch) }

  function DigitChar(d: nat): (ch: char)
    requires d < 10
    ensures IsDigit(ch) && DigitValue(ch) == d
  {
    ['0', '1', '2', '3', '4', '5', '6', '7', '8', '9'][d]
  }

  function DigitValue(ch: char): nat
    requires IsDigit(ch)
  {
    ch as int - '0' as int
  }

  function Numeral(n: nat): (s: string)
    ensures s != "" && AllDigits(s) && Value(s) == n
  {
    if n < 10 then [DigitChar(n)]
    else
      var s := Numeral(n / 10) + [DigitChar(n % 10)];
      assert s[..|s| - 1] == Numeral(n / 10);
      s
  }

  function Value(s: string): nat
    requires AllDigits(s)
  {
    if s == "" then 0 else 10 * Value(s[..|s| - 1]) + DigitValue(s[|s| - 1])
  }

  /** Ten digits with their usual values, the most significant first. */
  lemma DigitsExample()
    ensures Numeral(1234567890) == "1234567890"
  {
    assert Numeral(1) == "1";
    assert Numeral(12) == "12";
    assert Numeral(123) == "123";
    assert Numeral(1234) == "1234";
    assert Numeral(12345) == "12345";
    assert Numeral(123456) == "123456";
    assert Numeral(1234567) == "1234567";
    assert Numeral(12345678) == "12345678";
    assert Numeral(123456789) == "123456789";
  }
}
