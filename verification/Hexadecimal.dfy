/** Hexadecimal numerals in upper case, as String::FormatHexInt prints them. */
module Hexadecimal {
  predicate IsHexDigit(ch: char) { '0' <= ch <= '9' || 'A' <= ch <= 'F' || 'a' <= ch <= 'f' }

  function HexChar(d: nat): (ch: char)
    requires d < 16
    ensures IsHexDigit(ch) && HexDigitValue(ch) == d
  {
    if d < 10 then (d as char - 0 as char) + '0' else (d - 10) as char + 'A'
  }

  function HexDigitValue(ch: char): (d: nat)
    requires IsHexDigit(ch)
    ensures d < 16
  {
    if ch <= '9' then ch as int - '0' as int
    else if ch <= 'F' then ch as int - 'A' as int + 10
    else ch as int - 'a' as int + 10
  }

  predicate AllHex(s: string) { forall ch <- s :: IsHexDigit(ch) }

  function HexNumeral(n: nat): (s: string)
    ensures s != "" && AllHex(s) && HexValue(s) == n
  {
    if n < 16 then
      assert [HexChar(n)][..0] == "";
      [HexChar(n)]
    else
      var s := HexNumeral(n / 16) + [HexChar(n % 16)];
      assert s[..|s| - 1] == HexNumeral(n / 16);
      s
  }

  function HexValue(s: string): nat
    requires AllHex(s)
  {
    if s == "" then 0 else 16 * HexValue(s[..|s| - 1]) + HexDigitValue(s[|s| - 1])
  }

  /** Letters are upper case, and the most significant digit comes first. */
  lemma DigitsExample()
    ensures HexNumeral(0x1A2B3C4D) == "1A2B3C4D" && HexNumeral(0xEF) == "EF"
  {
    assert HexNumeral(0x1) == "1";
    assert HexNumeral(0x1A) == "1A";
    assert HexNumeral(0x1A2) == "1A2";
    assert HexNumeral(0x1A2B) == "1A2B";
    assert HexNumeral(0x1A2B3) == "1A2B3";
    assert HexNumeral(0x1A2B3C) == "1A2B3C";
    assert HexNumeral(0x1A2B3C4) == "1A2B3C4";
    assert HexNumeral(0xE) == "E";
  }

  /** The digits that a string begins with. */
  function HexRun(s: string): (n: nat)
    ensures n <= |s| && AllHex(s[..n])
  {
    if s == "" || !IsHexDigit(s[0]) then 0
    else
      assert s[..1 + HexRun(s[1..])] == [s[0]] + s[1..][..HexRun(s[1..])];
      1 + HexRun(s[1..])
  }

  lemma {:induction false} HexRunEnds(h: string, t: string)
    requires AllHex(h) && (t == "" || !IsHexDigit(t[0]))
    ensures HexRun(h + t) == |h|
  {
    if h != "" {
      assert (h + t)[0] == h[0] && h[0] in h && (h + t)[1..] == h[1..] + t;
      HexRunEnds(h[1..], t);
    } else {
      assert h + t == t;
    }
  }
}
