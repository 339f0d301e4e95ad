/** JSON values and the recursive-descent parser of src/cJSON.c as a function on text. */
module Json {
  import opened Bytes

  /** What a tree of cJSON nodes stands for; `valueint` follows from the double. */
  datatype Value =
    | Null
    | False
    | True
    | Number(d: real)
    | String(s: Text)
    | Array(items: seq<Value>)
    | Object(members: seq<Member>)

  datatype Member = Member(name: Text, value: Value)

  /** The value and the unread text, or the text at which `*ep` is left pointing. */
  datatype Parsed<+T> = Parsed(value: T, rest: Text) | Malformed(at: Text)

  const NULL_TEXT: Text := ['n' as int, 'u' as int, 'l' as int, 'l' as int]
  const FALSE_TEXT: Text := ['f' as int, 'a' as int, 'l' as int, 's' as int, 'e' as int]
  const TRUE_TEXT: Text := ['t' as int, 'r' as int, 'u' as int, 'e' as int]

  /** Drops leading bytes up to the space character. */
  function Skip(s: Text): (r: Text)
    ensures |r| <= |s|
  {
    if s != [] && s[0] <= SPACE then Skip(s[1..]) else s
  }

  // ----- Numbers ------------------------------------------------------------

  /** x * 10^e, over exact rationals. */
  function Shift(x: real, e: int): real
    decreases if e < 0 then -e else e
  {
    if e == 0 then x else if e > 0 then Shift(x * 10.0, e - 1) else Shift(x / 10.0, e + 1)
  }

  predicate IsExponentMark(c: byte) {
    c == 'e' as int || c == 'E' as int
  }

  /** The optional fraction: its digits are kept only if at least one follows the point. */
  function FractionLength(s: Text): (n: nat)
    ensures n > 0 ==> n + 1 <= |s|
  {
    if Head(s) == POINT then DigitCount(s[1..]) else 0
  }

  /** The value of the digits at the front of `s`, and how many there are. */
  function ReadDigits(acc: nat, s: Text): (r: (nat, nat))
    ensures r.1 <= |s|
  {
    var n := DigitCount(s);
    DigitCountIsRun(s);
    (Horner(acc, s[..n]), n)
  }

  predicate IsSign(c: byte) {
    c == PLUS || c == MINUS
  }

  /** The optional exponent: its value and the number of bytes it takes up. */
  function Exponent(s: Text): (r: (int, nat))
    ensures r.1 <= |s|
  {
    if !IsExponentMark(Head(s)) then (0, 0)
    else if !IsSign(Head(s[1..])) then
      var (e, n) := ReadDigits(0, s[1..]);
      (e, 1 + n)
    else
      var (e, n) := ReadDigits(0, s[1..][1..]);
      (if Head(s[1..]) == MINUS then 0 - e else e, 2 + n)
  }

  function Signed(neg: bool, x: real): real {
    if neg then -x else x
  }

  /** Everything from the decimal point on. */
  function ParseFraction(neg: bool, whole: nat, s: Text): (r: Parsed<Value>)
    ensures r.Parsed? && |r.rest| <= |s|
  {
    var k := FractionLength(s);
    var mantissa := if k > 0 then ReadDigits(whole, s[1..]).0 else whole;
    var s1 := if k > 0 then s[1..][k..] else s;
    var (e, used) := Exponent(s1);
    Parsed(Number(Shift(Signed(neg, mantissa as real), e - k)), s1[used..])
  }

  /** A zero here was not followed by another leading digit: nothing more is read. */
  function WholeDigits(s: Text): (r: (nat, nat))
    ensures r.1 <= |s|
  {
    if Head(s) == ZERO then (0, 0) else ReadDigits(0, s)
  }

  function ParseNumber(s: Text): (r: Parsed<Value>)
    requires Head(s) == MINUS || IsDigit(Head(s))
    ensures r.Parsed? && |r.rest| < |s|
  {
    var neg := Head(s) == MINUS;
    var s1 := if neg then s[1..] else s;
    var s2 := if Head(s1) == ZERO then s1[1..] else s1;
    var (whole, n) := WholeDigits(s2);
    ParseFraction(neg, whole, s2[n..])
  }

  const INT_MAX := 0x7FFF_FFFF
  const INT_MIN := -0x8000_0000

  /** Conversion of a double to int. */
  function Truncate(d: real): int {
    if d >= 0.0 then d.Floor else -(-d).Floor
  }

  // ----- Strings ------------------------------------------------------------

  /** The first pass of parse_string: bytes up to the closing quote or the end of the text. */
  function BodyLength(s: Text): (n: nat)
    ensures n <= |s|
    ensures n < |s| ==> s[n] == QUOTE
  {
    if s == [] || s[0] == QUOTE then 0
    else if s[0] == BACKSLASH && |s| > 1 then 2 + BodyLength(s[2..])
    else 1 + BodyLength(s[1..])
  }

  /** The index of the quote that ends the body at `i`, or the end of the text. */
  ghost function BodyEnd(text: Text, i: nat): nat
    requires i <= |text|
  {
    i + BodyLength(text[i..])
  }

  /** The byte that a two-byte escape other than \u stands for. */
  function Unescape(c: Char): Char {
    if c == 'b' as int then BACKSPACE
    else if c == 'f' as int then FORMFEED
    else if c == 'n' as int then LF
    else if c == 'r' as int then CR
    else if c == 't' as int then TAB
    else c
  }

  predicate IsHex(c: byte) {
    IsDigit(c) || 'A' as int <= c <= 'F' as int || 'a' as int <= c <= 'f' as int
  }

  function HexDigit(c: byte): (d: nat)
    requires IsHex(c)
    ensures d < 16
  {
    if IsDigit(c) then c - ZERO
    else if 'A' as int <= c <= 'F' as int then 10 + c - 'A' as int
    else 10 + c - 'a' as int
  }

  predicate AllHex(h: Text) {
    forall i | 0 <= i < |h| :: IsHex(h[i])
  }

  /** Four hexadecimal digits, or 0 if one of them is something else. */
  function Hex4(h: Text): (u: nat)
    requires |h| == 4
    ensures u < 0x10000
  {
    if AllHex(h)
    then 0x1000 * HexDigit(h[0]) + 0x100 * HexDigit(h[1]) + 0x10 * HexDigit(h[2]) + HexDigit(h[3])
    else 0
  }

  predicate HighSurrogate(u: int) { 0xD800 <= u <= 0xDBFF }

  predicate LowSurrogate(u: int) { 0xDC00 <= u <= 0xDFFF }

  /** A code point that can be encoded on its own and is not NUL. */
  predicate Scalar(u: int) {
    0 < u <= 0x10FFFF && !HighSurrogate(u) && !LowSurrogate(u)
  }

  function Combine(hi: int, lo: int): (u: int)
    requires HighSurrogate(hi) && LowSurrogate(lo)
    ensures 0x10000 <= u <= 0x10FFFF
  {
    0x10000 + (hi - 0xD800) * 0x400 + (lo - 0xDC00)
  }

  /** The code unit of a second \u escape, or 0 if there is none. */
  function SecondUnit(b: Text): nat {
    if |b| < 12 || b[6] != BACKSLASH || b[7] != 'u' as int then 0 else Hex4(b[8..12])
  }

  /** The code point of the \u escape (or pair of escapes) in front of `b`, and its length. */
  function UnicodeEscape(b: Text): (r: Option<(int, nat)>)
    ensures r.Some? ==> Scalar(r.value.0) && 6 <= r.value.1 <= |b|
  {
    if |b| < 6 then None
    else
      var u := Hex4(b[2..6]);
      if u == 0 || LowSurrogate(u) then None
      else if !HighSurrogate(u) then Some((u, 6))
      else if LowSurrogate(SecondUnit(b)) then Some((Combine(u, SecondUnit(b)), 12))
      else None
  }

  /** The number of bytes parse_string gives a code point. */
  function Utf8Length(u: nat): (n: nat)
    ensures 1 <= n <= 4
  {
    if u < 0x80 then 1 else if u < 0x800 then 2 else if u < 0x10000 then 3 else 4
  }

  /** The bytes parse_string stores for a code point. */
  function Utf8(u: int): (t: Text)
    requires Scalar(u)
    ensures |t| == Utf8Length(u)
  {
    if u < 0x80 then [u]
    else if u < 0x800 then [0xC0 + u / 0x40, 0x80 + u % 0x40]
    else if u < 0x10000 then [0xE0 + u / 0x1000, 0x80 + u / 0x40 % 0x40, 0x80 + u % 0x40]
    else [0xF0 + u / 0x40000, 0x80 + u / 0x1000 % 0x40, 0x80 + u / 0x40 % 0x40, 0x80 + u % 0x40]
  }

  function Prepend(t: Text, r: Option<Text>): Option<Text> {
    if r.Some? then Some(t + r.value) else None
  }

  lemma PrependNothing(r: Option<Text>)
    ensures Prepend([], r) == r
  {
    if r.Some? { assert [] + r.value == r.value; }
  }

  lemma PrependTwice(x: Text, y: Text, r: Option<Text>)
    ensures Prepend(x, Prepend(y, r)) == Prepend(x + y, r)
  {
    if r.Some? { assert x + y + r.value == x + (y + r.value); }
  }

  /** The second pass of parse_string: the bytes a string body stands for. */
  function Decode(b: Text): Option<Text>
    decreases |b|
  {
    if b == [] then Some([])
    else if b[0] != BACKSLASH then Prepend([b[0]], Decode(b[1..]))
    else if |b| < 2 then None
    else if b[1] != 'u' as int then Prepend([Unescape(b[1])], Decode(b[2..]))
    else
      var e := UnicodeEscape(b);
      if e.None? then None else Prepend(Utf8(e.value.0), Decode(b[e.value.1..]))
  }

  /** An unterminated body is accepted when the text ends there. */
  function ParseString(s: Text): (r: Parsed<Text>)
    ensures r.Parsed? ==> |r.rest| < |s|
  {
    if Head(s) != QUOTE then Malformed(s)
    else
      var n := BodyLength(s[1..]);
      var d := Decode(s[1..][..n]);
      if d.None? then Malformed(s)
      else Parsed(d.value, if n + 1 < |s| then s[n + 2..] else [])
  }

  // ----- Values -------------------------------------------------------------

  function ParseValue(s: Text): (r: Parsed<Value>)
    ensures r.Parsed? ==> |r.rest| < |s|
    decreases |s|, 1
  {
    if NULL_TEXT <= s then Parsed(Null, s[4..])
    else if FALSE_TEXT <= s then Parsed(False, s[5..])
    else if TRUE_TEXT <= s then Parsed(True, s[4..])
    else if Head(s) == QUOTE then
      var r := ParseString(s);
      if r.Parsed? then Parsed(String(r.value), r.rest) else Malformed(r.at)
    else if Head(s) == MINUS || IsDigit(Head(s)) then ParseNumber(s)
    else if Head(s) == LBRACKET then
      var s1 := Skip(s[1..]);
      if Head(s1) == RBRACKET then Parsed(Array([]), s1[1..])
      else
        var r := ParseItems(s1);
        if r.Parsed? then Parsed(Array(r.value), r.rest) else Malformed(r.at)
    else if Head(s) == LBRACE then
      var s1 := Skip(s[1..]);
      if Head(s1) == RBRACE then Parsed(Object([]), s1[1..])
      else
        var r := ParseMembers(s1);
        if r.Parsed? then Parsed(Object(r.value), r.rest) else Malformed(r.at)
    else Malformed(s)
  }

  /** The items of an array up to and including its closing bracket. */
  function ParseItems(s: Text): (r: Parsed<seq<Value>>)
    ensures r.Parsed? ==> |r.rest| < |s|
    decreases |s|, 2
  {
    var r := ParseValue(Skip(s));
    if r.Malformed? then Malformed(r.at)
    else
      var s2 := Skip(r.rest);
      if Head(s2) == COMMA then
        var more := ParseItems(s2[1..]);
        if more.Parsed? then Parsed([r.value] + more.value, more.rest) else more
      else if Head(s2) == RBRACKET then Parsed([r.value], s2[1..])
      else Malformed(s2)
  }

  /** One `"name": value` pair. */
  function ParseMember(s: Text): (r: Parsed<Member>)
    ensures r.Parsed? ==> |r.rest| < |s|
    decreases |s|, 2
  {
    var k := ParseString(Skip(s));
    if k.Malformed? then Malformed(k.at)
    else
      var s1 := Skip(k.rest);
      if Head(s1) != COLON then Malformed(s1)
      else
        var v := ParseValue(Skip(s1[1..]));
        if v.Malformed? then Malformed(v.at) else Parsed(Member(k.value, v.value), v.rest)
  }

  /** The members of an object up to and including its closing brace. */
  function ParseMembers(s: Text): (r: Parsed<seq<Member>>)
    ensures r.Parsed? ==> |r.rest| < |s|
    decreases |s|, 3
  {
    var m := ParseMember(s);
    if m.Malformed? then Malformed(m.at)
    else
      var s2 := Skip(m.rest);
      if Head(s2) == COMMA then
        var more := ParseMembers(s2[1..]);
        if more.Parsed? then Parsed([m.value] + more.value, more.rest) else more
      else if Head(s2) == RBRACE then Parsed([m.value], s2[1..])
      else Malformed(s2)
  }

  /** cJSON_ParseWithOpts; without `toEnd` the text after the value is not looked at. */
  function Parse(s: Text, toEnd: bool): Parsed<Value> {
    var r := ParseValue(Skip(s));
    if toEnd && r.Parsed? then
      var end := Skip(r.rest);
      if end == [] then Parsed(r.value, end) else Malformed(end)
    else r
  }
}
