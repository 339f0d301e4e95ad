/** C bytes, NUL-free C strings and the ASCII classes both programs test for. */
module Bytes {

  /** The contents of one `char` cell, read as unsigned. */
  type byte = b: int | 0 <= b < 256

  /** A byte that can occur inside a C string. */
  type Char = c: int | 0 < c < 256 witness 1

  /** The contents of a NUL-terminated string, without its terminator. */
  type Text = seq<Char>

  datatype Option<+T> = None | Some(value: T)

  const BACKSPACE: Char := 8
  const TAB: Char := 9
  const LF: Char := 10
  const FORMFEED: Char := 12
  const CR: Char := 13
  const SPACE: Char := 32
  const QUOTE: Char := '"' as int
  const APOSTROPHE: Char := '\'' as int
  const BACKSLASH: Char := '\\' as int
  const COMMA: Char := ',' as int
  const COLON: Char := ':' as int
  const SLASH: Char := '/' as int
  const STAR: Char := '*' as int
  const MINUS: Char := '-' as int
  const PLUS: Char := '+' as int
  const POINT: Char := '.' as int
  const ZERO: Char := '0' as int
  const NINE: Char := '9' as int
  const LBRACKET: Char := '[' as int
  const RBRACKET: Char := ']' as int
  const LBRACE: Char := '{' as int
  const RBRACE: Char := '}' as int

  /** What `*s` reads: the first character, or the terminator. */
  function Head(s: Text): byte {
    if s == [] then 0 else s[0]
  }

  /** What `s[i]` reads; reading past the terminator is not allowed. */
  function Peek(s: Text, i: nat): byte
    requires i <= |s|
  {
    if i < |s| then s[i] else 0
  }

  /** What a C string function sees of a block: the bytes before the first NUL. */
  function UpToNul(s: seq<byte>): (t: Text)
    ensures |t| <= |s| && s[..|t|] == t && (|t| < |s| ==> s[|t|] == 0)
  {
    if s == [] || s[0] == 0 then [] else [s[0] as Char] + UpToNul(s[1..])
  }

  lemma {:induction false} TextUpToNul(z: Text)
    ensures UpToNul(z) == z
  {
    if z != [] {
      TextUpToNul(z[1..]);
      assert z == [z[0]] + z[1..];
    }
  }

  lemma {:induction false} UpToNulIs(s: seq<byte>, t: Text)
    requires |t| < |s| && s[..|t|] == t && s[|t|] == 0
    ensures UpToNul(s) == t
  {
    if t != [] {
      assert s[0] == s[..|t|][0] && s[1..][..|t| - 1] == t[1..];
      UpToNulIs(s[1..], t[1..]);
      assert t == [t[0]] + t[1..];
    }
  }

  lemma Split(a: Text, b: Text)
    ensures (a + b)[..|a|] == a && (a + b)[|a|..] == b
  {}

  lemma Assoc(a: Text, b: Text, c: Text)
    ensures a + b + c == a + (b + c)
  {}

  lemma Subslice(s: Text, i: nat, j: nat, a: nat, b: nat)
    requires i <= j <= |s| && a <= b <= j - i
    ensures s[i..j][a..b] == s[i + a..i + b]
  {
    var x, y := s[i..j][a..b], s[i + a..i + b];
    assert |x| == |y| && forall k | 0 <= k < |x| :: x[k] == y[k];
  }

  /** tolower in the C locale. */
  function Lower(c: byte): byte {
    if 'A' as int <= c <= 'Z' as int then c + 32 else c
  }

  /** The same letter, be it capital or small, or the same byte. */
  predicate SameLetter(a: byte, b: byte) {
    a == b || (65 <= a <= 90 && b == a + 32) || (65 <= b <= 90 && a == b + 32)
  }

  lemma LowerIff(a: byte, b: byte)
    ensures Lower(a) == Lower(b) <==> SameLetter(a, b)
  {}

  predicate SameLetters(a: Text, b: Text) {
    |a| == |b| && forall i | 0 <= i < |a| :: SameLetter(a[i], b[i])
  }

  /** isspace in the C locale. */
  predicate IsSpace(c: byte) {
    9 <= c <= 13 || c == SPACE
  }

  predicate IsDigit(c: byte) {
    ZERO <= c <= NINE
  }

  predicate AllDigits(s: Text) {
    forall i | 0 <= i < |s| :: IsDigit(s[i])
  }

  /** The number of digits at the front of `s`. */
  function DigitCount(s: Text): (n: nat)
    ensures n <= |s|
  {
    if IsDigit(Head(s)) then 1 + DigitCount(s[1..]) else 0
  }

  /** Reads digits from the left onto an accumulator, as the digit loops do. */
  function Horner(acc: nat, s: Text): nat
    requires AllDigits(s)
    decreases |s|
  {
    if s == [] then acc else Horner(acc * 10 + (s[0] - ZERO), s[1..])
  }

  lemma {:induction false} DigitCountIsRun(s: Text)
    ensures AllDigits(s[..DigitCount(s)])
    ensures DigitCount(s) < |s| ==> !IsDigit(s[DigitCount(s)])
  {
    if IsDigit(Head(s)) {
      DigitCountIsRun(s[1..]);
      var n := DigitCount(s[1..]);
      assert s[..n + 1] == [s[0]] + s[1..][..n];
    }
  }

  lemma {:induction false} DigitCountOf(ds: Text, rest: Text)
    requires AllDigits(ds) && !IsDigit(Head(rest))
    ensures DigitCount(ds + rest) == |ds|
  {
    if ds == [] {
      assert ds + rest == rest;
    } else {
      assert (ds + rest)[1..] == ds[1..] + rest;
      DigitCountOf(ds[1..], rest);
    }
  }

  lemma {:induction false} HornerConcat(acc: nat, a: Text, b: Text)
    requires AllDigits(a) && AllDigits(b)
    ensures AllDigits(a + b)
    ensures Horner(acc, a + b) == Horner(Horner(acc, a), b)
    decreases |a|
  {
    if a == [] {
      assert a + b == b;
    } else {
      assert (a + b)[1..] == a[1..] + b;
      HornerConcat(acc * 10 + (a[0] - ZERO), a[1..], b);
    }
  }

  // ----- Blocks ---------------------------------------------------------------------------

  ghost predicate BytesAt(z: array<byte>, at: nat, r: seq<byte>)
    reads z
  {
    at + |r| <= z.Length && forall k | at <= k < at + |r| :: z[k] == r[k - at]
  }

  /** The block holds the C string `t` at `at`. */
  ghost predicate StrAt(z: array<byte>, at: nat, t: Text)
    reads z
  {
    at + |t| < z.Length && BytesAt(z, at, t) && z[at + |t|] == 0
  }

  /** From index `i` on the C string at `at` is still what it was, up to its terminator. */
  ghost predicate RestAt(z: array<byte>, at: nat, t: Text, i: nat)
    reads z
  {
    at + |t| < z.Length && forall k | at + i <= k <= at + |t| :: z[k] == Peek(t, k - at)
  }

  lemma RestStarts(z: array<byte>, at: nat, t: Text)
    requires StrAt(z, at, t)
    ensures RestAt(z, at, t, 0)
  {}
}
