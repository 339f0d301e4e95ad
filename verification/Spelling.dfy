/**
 How JSON is spelled, byte by byte and in numbers: what the parser makes of escapes, digits and
 keywords, and what the printers write for strings and numbers.
 */
module Spelling {
  import opened Bytes
  import opened Json
  import opened Grammar
  import opened JsonPrint

  // ----- Escapes --------------------------------------------------------------------

  /** What a backslash and a byte other than `u` stand for, in front of any further body. */
  lemma ShortEscape(c: Char, b: Text)
    requires c != 117
    ensures c == 98 ==> Decode([92, c] + b) == Prepend([8], Decode(b))
    ensures c == 102 ==> Decode([92, c] + b) == Prepend([12], Decode(b))
    ensures c == 110 ==> Decode([92, c] + b) == Prepend([10], Decode(b))
    ensures c == 114 ==> Decode([92, c] + b) == Prepend([13], Decode(b))
    ensures c == 116 ==> Decode([92, c] + b) == Prepend([9], Decode(b))
    ensures c !in [98, 102, 110, 114, 116] ==> Decode([92, c] + b) == Prepend([c], Decode(b))
  {
    DecodePiece(Escape(c), b);
  }

  /** The eight short escapes of section 7 of RFC 8259, as strings in front of any rest. */
  lemma ShortStrings(rest: Text)
    ensures ParseString([34, 92, 34, 34] + rest) == Parsed([34], rest)
    ensures ParseString([34, 92, 92, 34] + rest) == Parsed([92], rest)
    ensures ParseString([34, 92, 47, 34] + rest) == Parsed([47], rest)
    ensures ParseString([34, 92, 98, 34] + rest) == Parsed([8], rest)
    ensures ParseString([34, 92, 102, 34] + rest) == Parsed([12], rest)
    ensures ParseString([34, 92, 110, 34] + rest) == Parsed([10], rest)
    ensures ParseString([34, 92, 114, 34] + rest) == Parsed([13], rest)
    ensures ParseString([34, 92, 116, 34] + rest) == Parsed([9], rest)
  {
    OneEscape(34, rest);
    OneEscape(92, rest);
    OneEscape(47, rest);
    OneEscape(98, rest);
    OneEscape(102, rest);
    OneEscape(110, rest);
    OneEscape(114, rest);
    OneEscape(116, rest);
  }

  lemma OneEscape(c: EscapeChar, rest: Text)
    ensures ParseString([34, 92, c, 34] + rest) == Parsed([Unescape(c)], rest)
  {
    var ps := [Escape(c)];
    assert ps[1..] == [] && PiecesText(ps) == [92, c] && PiecesMeaning(ps) == [Unescape(c)];
    assert Quoted(ps) == [34, 92, c, 34];
    ParseStringOf(ps, rest);
  }

  // ----- Hexadecimal digits ---------------------------------------------------------------

  /** The 22 digits and their values. */
  predicate HexValue(c: int, d: int) {
    (48 <= c <= 57 && d == c - 48) || (65 <= c <= 70 && d == c - 55) || (97 <= c <= 102 && d == c - 87)
  }

  /** An escape with four digits, of a code unit that stands for itself. */
  lemma HexEscape(h: Text, d: seq<nat>, b: Text)
    requires |h| == |d| == 4
    requires HexValue(h[0], d[0]) && HexValue(h[1], d[1]) && HexValue(h[2], d[2]) && HexValue(h[3], d[3])
    requires var u := 4096 * d[0] + 256 * d[1] + 16 * d[2] + d[3]; 0 < u && !(0xD800 <= u <= 0xDFFF)
    ensures Decode([92, 117] + h + b) == Prepend(Utf8(4096 * d[0] + 256 * d[1] + 16 * d[2] + d[3]), Decode(b))
  {
    HexDigits(h, d);
    DecodePiece(Unicode(h), b);
  }

  lemma HexDigits(h: Text, d: seq<nat>)
    requires |h| == |d| == 4
    requires HexValue(h[0], d[0]) && HexValue(h[1], d[1]) && HexValue(h[2], d[2]) && HexValue(h[3], d[3])
    ensures AllHex(h) && Hex4(h) == 4096 * d[0] + 256 * d[1] + 16 * d[2] + d[3]
  {}

  /** Any other byte among the four makes the string invalid. */
  lemma NoHexEscape(h: Text, b: Text, i: nat)
    requires |h| == 4 && i < 4 && forall d :: !HexValue(h[i], d)
    ensures Decode([92, 117] + h + b) == None
  {
    var c: int := h[i];
    assert !HexValue(c, c - 48) && !HexValue(c, c - 55) && !HexValue(c, c - 87);
    var s := [92, 117] + h + b;
    assert s[2..6] == h;
    assert UnicodeEscape(s) == None;
  }

  // ----- Keywords and punctuation -----------------------------------------------------------

  /** The three keywords, in front of any rest. */
  lemma Keywords(rest: Text)
    ensures ParseValue([110, 117, 108, 108] + rest) == Parsed(Null, rest)
    ensures ParseValue([102, 97, 108, 115, 101] + rest) == Parsed(False, rest)
    ensures ParseValue([116, 114, 117, 101] + rest) == Parsed(True, rest)
  {
    ParseTokenOf(TNull, rest);
    ParseTokenOf(TFalse, rest);
    ParseTokenOf(TTrue, rest);
  }

  // ----- Powers of ten ----------------------------------------------------------------------

  function TenTo(k: nat): real {
    if k == 0 then 1.0 else 10.0 * TenTo(k - 1)
  }

  lemma {:induction false} ShiftIsTimes(x: real, k: nat)
    ensures Shift(x, k) == x * TenTo(k)
    ensures Shift(x, 0 - k) * TenTo(k) == x
    decreases k
  {
    if k > 0 {
      ShiftIsTimes(x * 10.0, k - 1);
      ShiftIsTimes(x / 10.0, k - 1);
      TimesTen(x, TenTo(k - 1));
      DividedByTen(x, Shift(x / 10.0, 1 - k), TenTo(k - 1));
    }
  }

  lemma TimesTen(x: real, t: real)
    ensures x * 10.0 * t == x * (10.0 * t)
  {}

  lemma DividedByTen(x: real, y: real, t: real)
    requires y * t == x / 10.0
    ensures y * (10.0 * t) == x
  {
    assert y * (10.0 * t) == 10.0 * (y * t);
  }

  /** An exponent multiplies by its power of ten, or divides if its sign is a minus. */
  lemma ExponentScales(n: NumParts)
    requires n.exp.Exp?
    ensures var plain, k := n.(exp := NoExp), Horner(0, n.exp.digits);
            if n.exp.sign == Negative then NumValue(n) * TenTo(k) == NumValue(plain)
            else NumValue(n) == NumValue(plain) * TenTo(k)
  {
    var plain, k := n.(exp := NoExp), Horner(0, n.exp.digits);
    ScaledBy(NumValue(plain), n.exp);
  }

  lemma ScaledBy(x: real, e: Exp)
    requires e.Exp?
    ensures var k := Horner(0, e.digits);
            if e.sign == Negative then Shift(x, ExpValue(e)) * TenTo(k) == x else Shift(x, ExpValue(e)) == x * TenTo(k)
  {
    ShiftIsTimes(x, Horner(0, e.digits));
  }

  /** How an exponent is written. */
  lemma ExponentBytes(e: Exp)
    ensures e.Exp? ==>
              ExpText(e) == [if e.capital then 69 else 101] + (match e.sign case Unsigned => [] case Positive => [43] case Negative => [45]) + e.digits
  {}

  // ----- Printed strings --------------------------------------------------------------------

  /** The low hexadecimal digit of a control byte. */
  function LowerHex(d: nat): (c: Char)
    requires d < 16
  {
    if d < 10 then 48 + d else 87 + d
  }

  /** What is written for each byte of a string, in front of what is written for the rest. */
  lemma PrintedByte(c: Char, s: Text)
    ensures PrintString(s) == [34] + EscapeText(s) + [34]
    ensures c == 34 || c == 92 ==> EscapeText([c] + s) == [92, c] + EscapeText(s)
    ensures c == 8 ==> EscapeText([c] + s) == [92, 98] + EscapeText(s)
    ensures c == 9 ==> EscapeText([c] + s) == [92, 116] + EscapeText(s)
    ensures c == 10 ==> EscapeText([c] + s) == [92, 110] + EscapeText(s)
    ensures c == 12 ==> EscapeText([c] + s) == [92, 102] + EscapeText(s)
    ensures c == 13 ==> EscapeText([c] + s) == [92, 114] + EscapeText(s)
    ensures c < 32 && c !in [8, 9, 10, 12, 13] ==>
              EscapeText([c] + s) == [92, 117, 48, 48, 48 + c / 16, LowerHex(c % 16)] + EscapeText(s)
    ensures c >= 32 && c != 34 && c != 92 ==> EscapeText([c] + s) == [c] + EscapeText(s)
  {
    assert ([c] + s)[0] == c && ([c] + s)[1..] == s;
  }

  // ----- Printed numbers --------------------------------------------------------------------

  /** `i` is the double without its fraction. */
  predicate CutTo(d: real, i: int) {
    if d >= 0.0 then i as real <= d < i as real + 1.0 else i as real - 1.0 < d <= i as real
  }

  /** Zero, a number within 2^-52 of the C int it is cut to, and any other. */
  lemma NumberBranch(d: real, i: int, fp: FloatText)
    requires CutTo(d, i)
    ensures d == 0.0 ==> Print(Number(d), 0, false, fp) == [48]
    ensures d != 0.0 ==>
              Print(Number(d), 0, false, fp) ==
              if -2147483648.0 <= d <= 2147483647.0 && -1.0 / 4503599627370496.0 <= i as real - d <= 1.0 / 4503599627370496.0
              then NumText(IntToken(i)) else NumText(fp(d))
  {
    CutIsTruncate(d, i);
    if d == 0.0 { assert NumText(IntToken(0)) == [48]; }
  }

  lemma CutIsTruncate(d: real, i: int)
    requires CutTo(d, i)
    ensures i == Truncate(d)
  {}

  /** "%d": a minus if there is one, and digits without a leading zero that make up the number. */
  lemma {:induction false} IntText(i: int)
    ensures i < 0 ==> NumText(IntToken(i)) == [45] + NumText(IntToken(-i))
    ensures 0 <= i < 10 ==> NumText(IntToken(i)) == [48 + i]
    ensures i >= 10 ==> NumText(IntToken(i)) == NumText(IntToken(i / 10)) + [48 + i % 10]
  {
    if i < 0 {
      IntDigits(-i);
      assert NumText(IntToken(i)) == [45] + (Decimal(-i) + ([] + []));
    } else {
      IntDigits(i);
      IntDigits(i / 10);
    }
  }

  lemma IntDigits(i: nat)
    ensures NumText(IntToken(i)) == Decimal(i)
  {
    assert [] + (Decimal(i) + ([] + [])) == Decimal(i);
  }
}
