/**
 * Code points of up to 21 bits as UTF-8. The specification is a decoder that
 * takes only the shortest form of each code point (section 3 of RFC 3629).
 */
module Utf8 {
  import opened Wrappers
  import opened Hexadecimal

  const MAX_CODE_POINT_1: bv32 := 0x7F
  const MAX_CODE_POINT_2: bv32 := 0x7FF
  const MAX_CODE_POINT_3: bv32 := 0xFFFF
  const MAX_CODE_POINT_4: bv32 := 0x1F_FFFF

  /** ChopLowBits at 6, the only width it is called with: the six lowest bits, and the rest shifted down. */
  function ChopSixBits(bits: bv32): (bv32, bv32) {
    (bits & 0x3F, bits >> 6)
  }

  function Bytes(s: string): seq<bv8>
    requires forall i :: 0 <= i < |s| ==> s[i] < '\U{0100}'
  {
    seq(|s|, i requires 0 <= i < |s| => s[i] as int as bv8)
  }

  function InvalidUnicode(c: bv32): seq<bv8> { InvalidMessage(c as nat) }

  function InvalidMessage(c: nat): seq<bv8> {
    HexNumeralIsAscii(c);
    Bytes("(Invalid Unicode 0x" + HexNumeral(c) + ")")
  }

  lemma HexNumeralIsAscii(c: nat)
    ensures forall i :: 0 <= i < |HexNumeral(c)| ==> HexNumeral(c)[i] < '\U{0100}'
  {
    var digits := HexNumeral(c);
    assert forall i :: 0 <= i < |digits| ==> digits[i] in digits && IsHexDigit(digits[i]);
  }

  /** One to four bytes; a C string, so nothing at all for code point 0. */
  function CodePointToUtf8(c: bv32): seq<bv8> {
    if c > MAX_CODE_POINT_4 then InvalidUnicode(c)
    else if c == 0 then []
    else if c <= MAX_CODE_POINT_1 then [c as bv8]
    else if c <= MAX_CODE_POINT_2 then InTwoBytes(c)
    else if c <= MAX_CODE_POINT_3 then InThreeBytes(c)
    else InFourBytes(c)
  }

  function InTwoBytes(c: bv32): seq<bv8>
    requires c <= MAX_CODE_POINT_2
  {
    var (b1, c1) := ChopSixBits(c);
    [(0xC0 | c1) as bv8, (0x80 | b1) as bv8]
  }

  function InThreeBytes(c: bv32): seq<bv8>
    requires c <= MAX_CODE_POINT_3
  {
    var (b2, c2) := ChopSixBits(c);
    var (b1, c1) := ChopSixBits(c2);
    [(0xE0 | c1) as bv8, (0x80 | b1) as bv8, (0x80 | b2) as bv8]
  }

  function InFourBytes(c: bv32): seq<bv8>
    requires c <= MAX_CODE_POINT_4
  {
    var (b3, c3) := ChopSixBits(c);
    var (b2, c2) := ChopSixBits(c3);
    var (b1, c1) := ChopSixBits(c2);
    [(0xF0 | c1) as bv8, (0x80 | b1) as bv8, (0x80 | b2) as bv8, (0x80 | b3) as bv8]
  }

  /** Values beyond Unicode get the message exactly when they need more than 21 bits. */
  lemma BeyondUnicode(c: bv32)
    requires c > 0x10_FFFF
    ensures CodePointToUtf8(c) == InvalidUnicode(c) <==> c > 0x1F_FFFF
  {
  }

  /** The first of them is encoded as if it were a code point. */
  lemma BeyondUnicodeExample()
    ensures CodePointToUtf8(0x11_0000) == [0xF4, 0x90, 0x80, 0x80]
  {
  }

  /** The message as text, with the number in upper case. */
  lemma MessageExample()
    ensures InvalidMessage(0xEF) == Bytes("(Invalid Unicode 0xEF)")
  {
    assert HexNumeral(0xE) == "E";
    assert HexNumeral(0xEF) == "EF";
    assert "(Invalid Unicode 0x" + "EF" + ")" == "(Invalid Unicode 0xEF)";
  }

  // ----- Decoding -----

  predicate Continues(b: bv8) { b & 0xC0 == 0x80 }

  function Low(b: bv8, mask: bv8): bv32 { (b & mask) as bv32 }

  function Joined2(a: bv8, b: bv8): bv32 { (Low(a, 0x1F) << 6) | Low(b, 0x3F) }

  function Joined3(a: bv8, b: bv8, c: bv8): bv32 { (Low(a, 0x0F) << 12) | (Low(b, 0x3F) << 6) | Low(c, 0x3F) }

  function Joined4(a: bv8, b: bv8, c: bv8, d: bv8): bv32 {
    (Low(a, 0x07) << 18) | (Low(b, 0x3F) << 12) | (Low(c, 0x3F) << 6) | Low(d, 0x3F)
  }

  /** The length of the sequence a byte begins; 0 for one that cannot begin any. */
  function SequenceLength(b: bv8): nat {
    if b & 0x80 == 0 then 1 else if b & 0xE0 == 0xC0 then 2 else if b & 0xF0 == 0xE0 then 3 else if b & 0xF8 == 0xF0 then 4 else 0
  }

  /** The first code point of a byte sequence and the number of bytes it takes; None if it is not well formed. */
  function DecodeFirst(s: seq<bv8>): (r: Option<(bv32, nat)>)
    ensures r.Some? ==> 0 < r.value.1 <= |s| && r.value.0 <= 0x1F_FFFF
  {
    if s == [] || |s| < SequenceLength(s[0]) then None else
    match SequenceLength(s[0])
    case 1 => Some((s[0] as bv32, 1))
    case 2 =>
      if !Continues(s[1]) || Joined2(s[0], s[1]) <= 0x7F then None else Some((Joined2(s[0], s[1]), 2))
    case 3 =>
      if !Continues(s[1]) || !Continues(s[2]) || Joined3(s[0], s[1], s[2]) <= 0x7FF then None
      else Some((Joined3(s[0], s[1], s[2]), 3))
    case 4 =>
      if !Continues(s[1]) || !Continues(s[2]) || !Continues(s[3]) || Joined4(s[0], s[1], s[2], s[3]) <= 0xFFFF then None
      else Some((Joined4(s[0], s[1], s[2], s[3]), 4))
    case _ => None
  }

  function Decode(s: seq<bv8>): Option<seq<bv32>> {
    if s == [] then Some([]) else
    match DecodeFirst(s)
    case None => None
    case Some((c, n)) =>
      match Decode(s[n..])
      case None => None
      case Some(rest) => Some([c] + rest)
  }

  lemma ThreeBytes(c: bv32)
    requires MAX_CODE_POINT_2 < c <= MAX_CODE_POINT_3
    ensures var s := InThreeBytes(c); SequenceLength(s[0]) == 3 && Continues(s[1]) && Continues(s[2]) && Joined3(s[0], s[1], s[2]) == c
  {
  }

  lemma FourBytes(c: bv32)
    requires MAX_CODE_POINT_3 < c <= MAX_CODE_POINT_4
    ensures var s := InFourBytes(c);
            && SequenceLength(s[0]) == 4 && Continues(s[1]) && Continues(s[2]) && Continues(s[3])
            && Joined4(s[0], s[1], s[2], s[3]) == c
  {
  }

  /** Every code point from 1 to 2^21-1 is read back from its encoding, whatever follows. */
  lemma DecodeCodePoint(c: bv32, rest: seq<bv8>)
    requires 0 < c <= 0x1F_FFFF
    ensures DecodeFirst(CodePointToUtf8(c) + rest) == Some((c, |CodePointToUtf8(c)|))
  {
    var s := CodePointToUtf8(c);
    if c <= MAX_CODE_POINT_1 {
      assert (s + rest)[0] == s[0];
    } else if MAX_CODE_POINT_2 < c <= MAX_CODE_POINT_3 {
      ThreeBytes(c);
    } else if MAX_CODE_POINT_3 < c {
      FourBytes(c);
    }
  }

  lemma EncodesTwoBytes(a: bv8, b: bv8)
    requires SequenceLength(a) == 2 && Continues(b)
    ensures Joined2(a, b) <= MAX_CODE_POINT_2 && InTwoBytes(Joined2(a, b)) == [a, b]
  {
  }

  lemma EncodesThreeBytes(a: bv8, b: bv8, c: bv8)
    requires SequenceLength(a) == 3 && Continues(b) && Continues(c)
    ensures Joined3(a, b, c) <= MAX_CODE_POINT_3 && InThreeBytes(Joined3(a, b, c)) == [a, b, c]
  {
  }

  lemma EncodesFourBytes(a: bv8, b: bv8, c: bv8, d: bv8)
    requires SequenceLength(a) == 4 && Continues(b) && Continues(c) && Continues(d)
    ensures Joined4(a, b, c, d) <= MAX_CODE_POINT_4 && InFourBytes(Joined4(a, b, c, d)) == [a, b, c, d]
  {
  }

  lemma OnlyFourBytes(s: seq<bv8>)
    requires |s| >= 4 && SequenceLength(s[0]) == 4 && Continues(s[1]) && Continues(s[2]) && Continues(s[3])
    requires Joined4(s[0], s[1], s[2], s[3]) > MAX_CODE_POINT_3
    ensures CodePointToUtf8(Joined4(s[0], s[1], s[2], s[3])) == s[..4]
  {
    EncodesFourBytes(s[0], s[1], s[2], s[3]);
    assert s[..4] == [s[0], s[1], s[2], s[3]];
  }

  lemma OnlyThreeBytes(s: seq<bv8>)
    requires |s| >= 3 && SequenceLength(s[0]) == 3 && Continues(s[1]) && Continues(s[2])
    requires Joined3(s[0], s[1], s[2]) > MAX_CODE_POINT_2
    ensures CodePointToUtf8(Joined3(s[0], s[1], s[2])) == s[..3]
  {
    EncodesThreeBytes(s[0], s[1], s[2]);
    assert s[..3] == [s[0], s[1], s[2]];
  }

  lemma OnlyTwoBytes(s: seq<bv8>)
    requires |s| >= 2 && SequenceLength(s[0]) == 2 && Continues(s[1]) && Joined2(s[0], s[1]) > MAX_CODE_POINT_1
    ensures CodePointToUtf8(Joined2(s[0], s[1])) == s[..2]
  {
    EncodesTwoBytes(s[0], s[1]);
    assert s[..2] == [s[0], s[1]];
  }

  lemma OnlyOneByte(s: seq<bv8>)
    requires |s| >= 1 && SequenceLength(s[0]) == 1 && s[0] != 0
    ensures CodePointToUtf8(s[0] as bv32) == s[..1]
  {
  }

  /** No other bytes are read as that code point. */
  lemma OnlyItsEncoding(s: seq<bv8>, c: bv32, n: nat)
    requires DecodeFirst(s) == Some((c, n)) && c != 0
    ensures CodePointToUtf8(c) == s[..n]
  {
    if n == 1 {
      OnlyOneByte(s);
    } else if n == 2 {
      OnlyTwoBytes(s);
    } else if n == 3 {
      OnlyThreeBytes(s);
    } else {
      OnlyFourBytes(s);
    }
  }

  // ----- Whole strings -----

  function ToUtf8(codePoints: seq<bv32>): seq<bv8> {
    if codePoints == [] then [] else CodePointToUtf8(codePoints[0]) + ToUtf8(codePoints[1..])
  }

  predicate Representable(codePoints: seq<bv32>) { forall i :: 0 <= i < |codePoints| ==> codePoints[i] <= 0x1F_FFFF }

  predicate NulFree(units: seq<bv32>) { forall i :: 0 <= i < |units| ==> units[i] != 0 }

  lemma {:induction false} DecodedAreRepresentable(s: seq<bv8>)
    ensures Decode(s).Some? ==> Representable(Decode(s).value)
    decreases |s|
  {
    if s != [] && DecodeFirst(s).Some? {
      DecodedAreRepresentable(s[DecodeFirst(s).value.1..]);
    }
  }

  lemma DecodeHead(c: bv32, s: seq<bv8>, codePoints: seq<bv32>)
    requires 0 < c <= MAX_CODE_POINT_4 && Decode(s) == Some(codePoints)
    ensures Decode(CodePointToUtf8(c) + s) == Some([c] + codePoints)
  {
    DecodeCodePoint(c, s);
    var head := CodePointToUtf8(c);
    assert (head + s)[|head|..] == s;
  }

  lemma {:induction false} DecodeRepresentable(codePoints: seq<bv32>)
    requires NulFree(codePoints) && Representable(codePoints)
    ensures Decode(ToUtf8(codePoints)) == Some(codePoints)
  {
    if codePoints != [] {
      var c, rest := codePoints[0], codePoints[1..];
      DecodeRepresentable(rest);
      DecodeHead(c, ToUtf8(rest), rest);
      assert [c] + rest == codePoints;
    }
  }

  /** The bytes decode to the code points exactly when none needs more than 21 bits. */
  lemma DecodeToUtf8(codePoints: seq<bv32>)
    requires NulFree(codePoints)
    ensures Decode(ToUtf8(codePoints)) == Some(codePoints) <==> Representable(codePoints)
  {
    DecodedAreRepresentable(ToUtf8(codePoints));
    if Representable(codePoints) {
      DecodeRepresentable(codePoints);
    }
  }

  lemma DecodedHead(s: seq<bv8>, codePoints: seq<bv32>) returns (n: nat)
    requires Decode(s) == Some(codePoints) && s != []
    ensures codePoints != [] && DecodeFirst(s) == Some((codePoints[0], n)) && Decode(s[n..]) == Some(codePoints[1..])
  {
    n := DecodeFirst(s).value.1;
    var rest := Decode(s[n..]).value;
    assert ([DecodeFirst(s).value.0] + rest)[1..] == rest;
  }

  lemma TailNulFree(codePoints: seq<bv32>)
    requires NulFree(codePoints) && codePoints != []
    ensures codePoints[0] != 0 && NulFree(codePoints[1..])
  {
  }

  lemma ToUtf8Head(codePoints: seq<bv32>, s: seq<bv8>, n: nat)
    requires codePoints != [] && n <= |s|
    requires CodePointToUtf8(codePoints[0]) == s[..n] && ToUtf8(codePoints[1..]) == s[n..]
    ensures ToUtf8(codePoints) == s
  {
    assert s[..n] + s[n..] == s;
  }

  /** And the bytes are the only ones that do. */
  lemma {:induction false} ToUtf8Decoded(s: seq<bv8>, codePoints: seq<bv32>)
    requires Decode(s) == Some(codePoints) && NulFree(codePoints)
    ensures ToUtf8(codePoints) == s
    decreases |s|
  {
    if s != [] {
      var n := DecodedHead(s, codePoints);
      OnlyItsEncoding(s, codePoints[0], n);
      TailNulFree(codePoints);
      ToUtf8Decoded(s[n..], codePoints[1..]);
      ToUtf8Head(codePoints, s, n);
    }
  }
}
