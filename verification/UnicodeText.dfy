/** UTF-8 (RFC 3629) and UTF-16 (RFC 2781) as references for the \u escapes of parse_string. */
module UnicodeText {
  import opened Bytes
  import opened Json
  import opened Grammar

  predicate Tail(b: int) { 0x80 <= b <= 0xBF }

  /** The first character of a byte string by the syntax in section 4 of RFC 3629. */
  function Utf8Decode(s: seq<int>): Option<int> {
    if s == [] then None
    else if 0 < s[0] <= 0x7F then Some(s[0])
    else if 0xC2 <= s[0] <= 0xDF && |s| >= 2 && Tail(s[1]) then Some((s[0] - 0xC0) * 0x40 + (s[1] - 0x80))
    else if 0xE0 <= s[0] <= 0xEF && |s| >= 3 && Tail(s[1]) && Tail(s[2])
            && (s[0] == 0xE0 ==> s[1] >= 0xA0) && (s[0] == 0xED ==> s[1] <= 0x9F) then
      Some((s[0] - 0xE0) * 0x1000 + (s[1] - 0x80) * 0x40 + (s[2] - 0x80))
    else if 0xF0 <= s[0] <= 0xF4 && |s| >= 4 && Tail(s[1]) && Tail(s[2]) && Tail(s[3])
            && (s[0] == 0xF0 ==> s[1] >= 0x90) && (s[0] == 0xF4 ==> s[1] <= 0x8F) then
      Some((s[0] - 0xF0) * 0x40000 + (s[1] - 0x80) * 0x1000 + (s[2] - 0x80) * 0x40 + (s[3] - 0x80))
    else None
  }

  /** What parse_string stores is well-formed and decodes to the code point. */
  lemma Utf8IsDecoded(u: int, rest: Text)
    requires Scalar(u)
    ensures Utf8Decode(Utf8(u) + rest) == Some(u)
  {
    var t := Utf8(u);
    var s := t + rest;
    assert forall k | 0 <= k < |t| :: s[k] == t[k];
    SixBits(u);
  }

  /** A number in groups of six bits. */
  lemma SixBits(u: nat)
    ensures u == u / 0x40 * 0x40 + u % 0x40
    ensures u / 0x40 == u / 0x1000 * 0x40 + u / 0x40 % 0x40
    ensures u / 0x1000 == u / 0x40000 * 0x40 + u / 0x1000 % 0x40
  {}

  /** The value of four bit fields determines them. */
  lemma Fields(a: int, b: int, c: int, d: int)
    requires 0 <= b < 0x40 && 0 <= c < 0x40 && 0 <= d < 0x40 && 0 <= a
    ensures var u := a * 0x40000 + b * 0x1000 + c * 0x40 + d;
            u / 0x40000 == a && u / 0x1000 % 0x40 == b && u / 0x40 % 0x40 == c && u % 0x40 == d
  {
    var u := a * 0x40000 + b * 0x1000 + c * 0x40 + d;
    assert u / 0x40 == a * 0x1000 + b * 0x40 + c;
    assert u / 0x1000 == a * 0x40 + b;
  }

  /** No other well-formed byte string does: the one stored is the shortest form. */
  lemma Utf8IsUnique(s: seq<int>, u: int)
    requires Utf8Decode(s) == Some(u)
    ensures Scalar(u) && Utf8(u) <= s
  {
    if s[0] <= 0x7F {
    } else if s[0] <= 0xDF {
      Fields(0, 0, s[0] - 0xC0, s[1] - 0x80);
    } else if s[0] <= 0xEF {
      Fields(0, s[0] - 0xE0, s[1] - 0x80, s[2] - 0x80);
    } else {
      Fields(s[0] - 0xF0, s[1] - 0x80, s[2] - 0x80, s[3] - 0x80);
      FourBytes(s, u);
    }
  }

  lemma FourBytes(s: seq<int>, u: int)
    requires |s| >= 4 && 0x10000 <= u <= 0x10FFFF
    requires u / 0x40000 == s[0] - 0xF0 && u / 0x1000 % 0x40 == s[1] - 0x80
    requires u / 0x40 % 0x40 == s[2] - 0x80 && u % 0x40 == s[3] - 0x80
    ensures Utf8(u) <= s
  {
    assert s[..4] == Utf8(u);
  }

  /** Decoding UTF-16 by section 2.2 of RFC 2781; None for unpaired or reversed surrogates. */
  function Utf16Decode(us: seq<nat>): Option<seq<int>> {
    if us == [] then Some([])
    else if us[0] < 0xD800 || us[0] > 0xDFFF then PrependCode(us[0], Utf16Decode(us[1..]))
    else if us[0] > 0xDBFF || |us| == 1 || us[1] < 0xDC00 || us[1] > 0xDFFF then None
    else PrependCode(us[0] % 0x400 * 0x400 + us[1] % 0x400 + 0x10000, Utf16Decode(us[2..]))
  }

  function PrependCode(u: int, r: Option<seq<int>>): Option<seq<int>> {
    if r.Some? then Some([u] + r.value) else None
  }

  function Units(hs: seq<Hex>): (us: seq<nat>)
    ensures |us| == |hs|
  {
    if hs == [] then [] else [Hex4(hs[0])] + Units(hs[1..])
  }

  /** A run of \u escapes. */
  function Escapes(hs: seq<Hex>): Text {
    if hs == [] then [] else [BACKSLASH, 'u' as int] + hs[0] + Escapes(hs[1..])
  }

  predicate Scalars(us: seq<int>) {
    forall i | 0 <= i < |us| :: Scalar(us[i])
  }

  function Utf8All(us: seq<int>): Text
    requires Scalars(us)
  {
    if us == [] then [] else Utf8(us[0]) + Utf8All(us[1..])
  }

  /** The string a run of escapes should stand for: its UTF-16 reading, if that is free of NUL. */
  function Transcoded(us: seq<nat>): Option<Text> {
    var r := Utf16Decode(us);
    if r.Some? && Scalars(r.value) then Some(Utf8All(r.value)) else None
  }

  lemma TranscodedCons(c: int, us: seq<int>)
    ensures Scalars([c] + us) <==> Scalar(c) && Scalars(us)
    ensures Scalars([c] + us) ==> Utf8All([c] + us) == Utf8(c) + Utf8All(us)
  {
    var cs := [c] + us;
    assert cs[0] == c && cs[1..] == us;
    assert forall i | 0 <= i < |us| :: us[i] == cs[i + 1];
  }

  /** A code unit that stands alone. */
  lemma TranscodedOne(us: seq<nat>)
    requires us != [] && us[0] < 0x10000 && !(HighSurrogate(us[0]) && |us| > 1)
    ensures Transcoded(us) == if Scalar(us[0]) then Prepend(Utf8(us[0]), Transcoded(us[1..])) else None
  {
    if Utf16Decode(us).Some? {
      TranscodedCons(us[0], Utf16Decode(us[1..]).value);
    }
  }

  /** A high surrogate and what follows it. */
  lemma TranscodedTwo(us: seq<nat>)
    requires |us| > 1 && HighSurrogate(us[0])
    ensures Transcoded(us) ==
            if LowSurrogate(us[1]) then Prepend(Utf8(Combine(us[0], us[1])), Transcoded(us[2..])) else None
  {
    if LowSurrogate(us[1]) {
      assert us[0] % 0x400 == us[0] - 0xD800 && us[1] % 0x400 == us[1] - 0xDC00;
      if Utf16Decode(us[2..]).Some? {
        TranscodedCons(Combine(us[0], us[1]), Utf16Decode(us[2..]).value);
      }
    }
  }

  function Join(a: Option<Text>, r: Option<Text>): Option<Text> {
    if a.Some? then Prepend(a.value, r) else None
  }

  lemma JoinPrepend(x: Text, a: Option<Text>, r: Option<Text>)
    ensures Join(Prepend(x, a), r) == Prepend(x, Join(a, r))
  {
    if a.Some? { PrependTwice(x, a.value, r); }
  }

  predicate StartsUnicode(s: Text) {
    |s| > 1 && s[0] == BACKSLASH && s[1] == 'u' as int
  }

  /**
   parse_string transcodes a run of escapes exactly when it is NUL-free UTF-16, whatever other
   bytes and escapes stand behind it.
   */
  lemma {:induction false} EscapesDecode(hs: seq<Hex>, tail: Text)
    requires !StartsUnicode(tail)
    ensures Decode(Escapes(hs) + tail) == Join(Transcoded(Units(hs)), Decode(tail))
    decreases |hs|
  {
    if hs == [] {
      assert Escapes(hs) + tail == tail;
      PrependNothing(Decode(tail));
    } else {
      var us, rest := Units(hs), Escapes(hs[1..]) + tail;
      EscapesOne(hs);
      assert us[1..] == Units(hs[1..]);
      Assoc([BACKSLASH, 'u' as int] + hs[0], Escapes(hs[1..]), tail);
      if HighSurrogate(us[0]) && |hs| > 1 {
        EscapesDecode(hs[2..], tail);
        EscapesPair(hs, tail);
        TranscodedTwo(us);
        JoinPrepend(Utf8(Combine(us[0], if LowSurrogate(us[1]) then us[1] else 0xDC00)), Transcoded(us[2..]), Decode(tail));
      } else {
        EscapesDecode(hs[1..], tail);
        if |hs| == 1 { assert rest == tail; }
        LoneEscape([BACKSLASH, 'u' as int] + hs[0] + rest, hs[0], rest);
        TranscodedOne(us);
        if Scalar(us[0]) { JoinPrepend(Utf8(us[0]), Transcoded(us[1..]), Decode(tail)); }
      }
    }
  }

  /** An escape that is not the first half of a pair of them. */
  lemma LoneEscape(b: Text, h: Hex, rest: Text)
    requires b == [BACKSLASH, 'u' as int] + h + rest && (HighSurrogate(Hex4(h)) ==> !StartsUnicode(rest))
    ensures Decode(b) == if Scalar(Hex4(h)) then Prepend(Utf8(Hex4(h)), Decode(rest)) else None
  {
    assert b[2..6] == h && b[6..] == rest;
    if |rest| > 1 { assert b[6] == rest[0] && b[7] == rest[1]; }
  }

  lemma {:induction false} EscapesPair(hs: seq<Hex>, tail: Text)
    requires |hs| > 1 && HighSurrogate(Hex4(hs[0]))
    ensures var b := Escapes(hs) + tail;
            && Units(hs)[1] == Hex4(hs[1]) && Units(hs)[2..] == Units(hs[2..])
            && Decode(b) == if LowSurrogate(Hex4(hs[1]))
                            then Prepend(Utf8(Combine(Hex4(hs[0]), Hex4(hs[1]))), Decode(Escapes(hs[2..]) + tail))
                            else None
  {
    EscapesTwo(hs);
    var rest := Escapes(hs[2..]) + tail;
    RegroupTwo(hs[0], hs[1], Escapes(hs[2..]), tail);
    TwoEscapes(hs[0], hs[1], rest);
    PairEscape(Escapes(hs) + tail, hs[0], hs[1], rest);
  }

  lemma RegroupTwo(hi: Hex, lo: Hex, rest: Text, tail: Text)
    ensures [BACKSLASH, 'u' as int] + hi + ([BACKSLASH, 'u' as int] + lo + rest) + tail
         == [BACKSLASH, 'u' as int] + hi + ([BACKSLASH, 'u' as int] + lo + (rest + tail))
  {}

  lemma EscapesTwo(hs: seq<Hex>)
    requires |hs| > 1
    ensures Escapes(hs) == [BACKSLASH, 'u' as int] + hs[0] + ([BACKSLASH, 'u' as int] + hs[1] + Escapes(hs[2..]))
    ensures Units(hs)[1] == Hex4(hs[1]) && Units(hs)[2..] == Units(hs[2..])
  {
    var tail := hs[1..];
    assert tail[0] == hs[1] && tail[1..] == hs[2..];
    EscapesOne(hs);
    EscapesOne(tail);
    UnitsTail(Hex4(hs[0]), Hex4(hs[1]), Units(hs[2..]));
  }

  lemma EscapesOne(hs: seq<Hex>)
    requires hs != []
    ensures Escapes(hs) == [BACKSLASH, 'u' as int] + hs[0] + Escapes(hs[1..])
    ensures Units(hs) == [Hex4(hs[0])] + Units(hs[1..])
  {}

  lemma UnitsTail(a: nat, b: nat, rest: seq<nat>)
    ensures var us := [a] + ([b] + rest); us[1] == b && us[2..] == rest
  {}

  lemma TwoEscapes(hi: Hex, lo: Hex, rest: Text)
    ensures var b := [BACKSLASH, 'u' as int] + hi + ([BACKSLASH, 'u' as int] + lo + rest);
            && |b| >= 12 && b[0] == BACKSLASH && b[1] == 'u' as int && b[2..6] == hi
            && b[6] == BACKSLASH && b[7] == 'u' as int && b[8..12] == lo && b[12..] == rest
  {}

  lemma PairEscape(b: Text, hi: Hex, lo: Hex, rest: Text)
    requires |b| >= 12 && rest == b[12..] && b[0] == BACKSLASH && b[1] == 'u' as int && b[2..6] == hi && HighSurrogate(Hex4(hi))
    requires b[6] == BACKSLASH && b[7] == 'u' as int && b[8..12] == lo
    ensures Decode(b) == if LowSurrogate(Hex4(lo)) then Prepend(Utf8(Combine(Hex4(hi), Hex4(lo))), Decode(rest))
                         else None
  {}

  /** Parts of a string body: a byte, a short escape, or a run of \u escapes with any digits. */
  datatype Part = Byte(c: PlainChar) | Short(e: EscapeChar) | Run(hs: seq<Hex>)

  function PartText(p: Part): Text {
    match p
    case Byte(c) => [c]
    case Short(e) => [BACKSLASH, e]
    case Run(hs) => Escapes(hs)
  }

  function PartsText(ps: seq<Part>): Text {
    if ps == [] then [] else PartText(ps[0]) + PartsText(ps[1..])
  }

  /** Runs are not empty and do not touch. */
  predicate Maximal(ps: seq<Part>) {
    forall i | 0 <= i < |ps| && ps[i].Run? :: ps[i].hs != [] && (i + 1 < |ps| ==> !ps[i + 1].Run?)
  }

  /** What the parts stand for; each run is UTF-16 by itself. */
  function Transcribed(ps: seq<Part>): Option<Text> {
    if ps == [] then Some([])
    else
      match ps[0]
      case Byte(c) => Prepend([c], Transcribed(ps[1..]))
      case Short(e) => Prepend([Unescape(e)], Transcribed(ps[1..]))
      case Run(hs) => Join(Transcoded(Units(hs)), Transcribed(ps[1..]))
  }

  /** A body is accepted exactly when every run in it is NUL-free UTF-16: no surrogate pairs across other bytes. */
  lemma {:induction false} BodyDecode(ps: seq<Part>)
    requires Maximal(ps)
    ensures Decode(PartsText(ps)) == Transcribed(ps)
  {
    if ps != [] {
      var tail := PartsText(ps[1..]);
      forall i | 0 <= i < |ps[1..]| && ps[1..][i].Run? ensures ps[1..][i].hs != [] && (i + 1 < |ps[1..]| ==> !ps[1..][i + 1].Run?) {
        assert ps[1..][i] == ps[i + 1];
      }
      BodyDecode(ps[1..]);
      match ps[0] {
        case Byte(c) => Split([c], tail);
        case Short(e) => Split([BACKSLASH, e], tail);
        case Run(hs) =>
          PartsStart(ps[1..]);
          EscapesDecode(hs, tail);
      }
    }
  }

  lemma PartsStart(ps: seq<Part>)
    requires ps == [] || !ps[0].Run?
    ensures !StartsUnicode(PartsText(ps))
  {
    if ps != [] { assert PartsText(ps)[..|PartText(ps[0])|] == PartText(ps[0]); }
  }

  /** RFC 2781 section 2.1 splits every supplementary code point into a pair that combines to it. */
  lemma CombineSplits(u: int)
    requires 0x10000 <= u <= 0x10FFFF
    ensures var hi, lo := 0xD800 + (u - 0x10000) / 0x400, 0xDC00 + (u - 0x10000) % 0x400;
            HighSurrogate(hi) && LowSurrogate(lo) && Combine(hi, lo) == u
  {}

  /** The masks and shifts in the source are the remainders and quotients used here. */
  lemma BitsAreDigits(u: bv32, v: bv32)
    ensures (((u | 0x80) & 0xBF) & 0xFF) == 0x80 + (u & 0x3F) && u & 0x3F == u % 0x40 && u >> 6 == u / 0x40
    ensures (u & 0x1F) | 0xC0 == 0xC0 + (u & 0x1F)
    ensures (u & 0x0F) | 0xE0 == 0xE0 + (u & 0x0F)
    ensures (u & 0x07) | 0xF0 == 0xF0 + (u & 0x07)
    ensures ((u & 0x3FF) << 10) | (v & 0x3FF) == (u & 0x3FF) * 0x400 + (v & 0x3FF) && u & 0x3FF == u % 0x400
  {}
}
