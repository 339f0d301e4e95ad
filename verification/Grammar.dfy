/**
 JSON texts as syntax trees that keep every byte: white space, comments (which only the
 minifier knows), escapes and number spelling. `Render` is the text of a tree and `Meaning`
 the value it denotes. The trees whose gaps are white space include every text of sections
 2 to 7 of RFC 8259 without \u0000 and without unpaired surrogates, and whatever else the
 parser takes for a value that is closed.
 */
module Grammar {
  import opened Bytes
  import opened Json

  // ----- Syntax trees -------------------------------------------------------

  datatype Gap = Blank(c: Char) | LineComment(body: Text) | BlockComment(body: Text)

  type Digits = s: Text | AllDigits(s)

  /** Digits of which at most the first is a leading zero. */
  type WholePart = s: Digits | |s| > 1 && s[0] == ZERO ==> s[1] != ZERO

  datatype ExpSign = Unsigned | Positive | Negative

  datatype Exp = NoExp | Exp(capital: bool, sign: ExpSign, digits: Digits)

  /** A number; no fraction is written when `frac` is empty. */
  datatype NumParts = NumParts(neg: bool, whole: WholePart, frac: Digits, exp: Exp)

  /** Section 6 of RFC 8259, and more: `01`, `-`, `-.5` and `1e` are numbers as well. */
  type NumToken = n: NumParts | n.neg || n.whole != [] witness NumParts(false, [ZERO], [], NoExp)

  /** Section 6 of RFC 8259. */
  predicate Section6(n: NumParts) {
    n.whole != [] && (n.whole[0] == ZERO ==> |n.whole| == 1) && (n.exp.Exp? ==> n.exp.digits != [])
  }

  type JsonNumber = n: NumToken | Section6(n) witness NumParts(false, [ZERO], [], NoExp)

  type Hex = h: Text | |h| == 4 && AllHex(h) witness [ZERO, ZERO, ZERO, ZERO]
  type ScalarHex = h: Hex | Scalar(Hex4(h)) witness [ZERO, ZERO, ZERO, NINE]
  type HighHex = h: Hex | HighSurrogate(Hex4(h)) witness ['D' as int, '8' as int, ZERO, ZERO]
  type LowHex = h: Hex | LowSurrogate(Hex4(h)) witness ['D' as int, 'C' as int, ZERO, ZERO]
  type PlainChar = c: Char | c != QUOTE && c != BACKSLASH witness SPACE
  type EscapeChar = c: Char | c != 'u' as int witness SPACE

  /**
   Section 7 of RFC 8259, and more: a string may also hold raw control characters, and any
   byte but `u` may follow a backslash.
   */
  datatype Piece =
    | Plain(c: PlainChar)
    | Escape(e: EscapeChar)
    | Unicode(hex: ScalarHex)
    | Surrogates(hi: HighHex, lo: LowHex)

  datatype Syntax =
    | TNull
    | TFalse
    | TTrue
    | TNumber(num: NumToken)
    | TString(pieces: seq<Piece>)
    | TEmptyArray(inside: seq<Gap>)
    | TEmptyObject(inside: seq<Gap>)
    | TArray(first: Elem, more: seq<Elem>)
    | TObject(lead: Field, others: seq<Field>)

  datatype Elem = Elem(before: seq<Gap>, value: Syntax, after: seq<Gap>)

  datatype Field = Field(before: seq<Gap>, key: seq<Piece>, gap: seq<Gap>, elem: Elem)

  // ----- Text ---------------------------------------------------------------

  function GapText(g: Gap): Text {
    match g
    case Blank(c) => [c]
    case LineComment(body) => [SLASH, SLASH] + body + [LF]
    case BlockComment(body) => [SLASH, STAR] + body + [STAR, SLASH]
  }

  function GapsText(gs: seq<Gap>): Text {
    if gs == [] then [] else GapText(gs[0]) + GapsText(gs[1..])
  }

  function SignText(sign: ExpSign): Text {
    match sign
    case Unsigned => []
    case Positive => [PLUS]
    case Negative => [MINUS]
  }

  function ExpText(e: Exp): Text {
    if e.NoExp? then []
    else [if e.capital then 'E' as int else 'e' as int] + SignText(e.sign) + e.digits
  }

  function FracText(frac: Text): Text {
    if frac == [] then [] else [POINT] + frac
  }

  function NumText(n: NumParts): Text {
    (if n.neg then [MINUS] else []) + (n.whole + (FracText(n.frac) + ExpText(n.exp)))
  }

  function PieceText(p: Piece): Text {
    match p
    case Plain(c) => [c]
    case Escape(c) => [BACKSLASH, c]
    case Unicode(hex) => [BACKSLASH, 'u' as int] + hex
    case Surrogates(hi, lo) => [BACKSLASH, 'u' as int] + hi + ([BACKSLASH, 'u' as int] + lo)
  }

  function PiecesText(ps: seq<Piece>): Text {
    if ps == [] then [] else PieceText(ps[0]) + PiecesText(ps[1..])
  }

  function Quoted(ps: seq<Piece>): Text {
    [QUOTE] + PiecesText(ps) + [QUOTE]
  }

  function Render(t: Syntax): Text
    decreases t, 0
  {
    match t
    case TNull => NULL_TEXT
    case TFalse => FALSE_TEXT
    case TTrue => TRUE_TEXT
    case TNumber(num) => NumText(num)
    case TString(ps) => Quoted(ps)
    case TEmptyArray(inside) => [LBRACKET] + (GapsText(inside) + [RBRACKET])
    case TEmptyObject(inside) => [LBRACE] + (GapsText(inside) + [RBRACE])
    case TArray(first, more) => [LBRACKET] + (RenderElem(first) + RenderMore(more))
    case TObject(lead, others) => [LBRACE] + (RenderField(lead) + RenderOthers(others))
  }

  function RenderElem(e: Elem): Text
    decreases e, 0
  {
    GapsText(e.before) + (Render(e.value) + GapsText(e.after))
  }

  /** The elements that follow, each behind its comma, and the closing bracket. */
  function RenderMore(es: seq<Elem>): Text
    decreases es, 0
  {
    if es == [] then [RBRACKET] else [COMMA] + (RenderElem(es[0]) + RenderMore(es[1..]))
  }

  function RenderField(f: Field): Text
    decreases f, 0
  {
    GapsText(f.before) + (Quoted(f.key) + (GapsText(f.gap) + ([COLON] + RenderElem(f.elem))))
  }

  function RenderOthers(fs: seq<Field>): Text
    decreases fs, 0
  {
    if fs == [] then [RBRACE] else [COMMA] + (RenderField(fs[0]) + RenderOthers(fs[1..]))
  }

  lemma RenderMoreCons(e: Elem, es: seq<Elem>)
    ensures RenderMore([e] + es) == [COMMA] + (RenderElem(e) + RenderMore(es))
  {
    assert ([e] + es)[1..] == es;
  }

  lemma RenderOthersCons(f: Field, fs: seq<Field>)
    ensures RenderOthers([f] + fs) == [COMMA] + (RenderField(f) + RenderOthers(fs))
  {
    assert ([f] + fs)[1..] == fs;
  }

  // ----- Gaps -----------------------------------------------------------------

  function GapSet(gs: seq<Gap>): set<Gap> {
    set g | g in gs
  }

  /** Every gap in the tree. */
  function Gaps(t: Syntax): set<Gap>
    decreases t, 0
  {
    match t
    case TNull => {}
    case TFalse => {}
    case TTrue => {}
    case TNumber(_) => {}
    case TString(_) => {}
    case TEmptyArray(inside) => GapSet(inside)
    case TEmptyObject(inside) => GapSet(inside)
    case TArray(first, more) => ElemGaps(first) + set e, g | e in more && g in ElemGaps(e) :: g
    case TObject(lead, others) => FieldGaps(lead) + set f, g | f in others && g in FieldGaps(f) :: g
  }

  function ElemGaps(e: Elem): set<Gap>
    decreases e, 0
  {
    GapSet(e.before) + Gaps(e.value) + GapSet(e.after)
  }

  function FieldGaps(f: Field): set<Gap>
    decreases f, 0
  {
    GapSet(f.before) + GapSet(f.gap) + ElemGaps(f.elem)
  }

  /** What the parser takes for white space. */
  predicate IsBlank(g: Gap) {
    g.Blank? && g.c <= SPACE
  }

  predicate AllBlank(gs: set<Gap>) {
    forall g | g in gs :: IsBlank(g)
  }

  // ----- Meaning ------------------------------------------------------------

  function ExpValue(e: Exp): int {
    if e.NoExp? then 0
    else
      var n: int := Horner(0, e.digits);
      if e.sign.Negative? then -n else n
  }

  /** The digits after the point by place value. */
  function Fraction(frac: Digits): real {
    if frac == [] then 0.0 else ((frac[0] - ZERO) as real + Fraction(frac[1..])) / 10.0
  }

  /** The signed decimal fraction times its power of ten. */
  function NumValue(n: NumParts): real {
    Shift(Signed(n.neg, Horner(0, n.whole) as real + Fraction(n.frac)), ExpValue(n.exp))
  }

  function PieceMeaning(p: Piece): Text {
    match p
    case Plain(c) => [c]
    case Escape(c) => [Unescape(c)]
    case Unicode(hex) => Utf8(Hex4(hex))
    case Surrogates(hi, lo) => Utf8(Combine(Hex4(hi), Hex4(lo)))
  }

  function PiecesMeaning(ps: seq<Piece>): Text {
    if ps == [] then [] else PieceMeaning(ps[0]) + PiecesMeaning(ps[1..])
  }

  function Meaning(t: Syntax): Value
    decreases t, 0
  {
    match t
    case TNull => Null
    case TFalse => False
    case TTrue => True
    case TNumber(num) => Number(NumValue(num))
    case TString(ps) => String(PiecesMeaning(ps))
    case TEmptyArray(_) => Array([])
    case TEmptyObject(_) => Object([])
    case TArray(first, more) => Array([Meaning(first.value)] + MoreMeaning(more))
    case TObject(lead, others) => Object([FieldMeaning(lead)] + OthersMeaning(others))
  }

  function MoreMeaning(es: seq<Elem>): seq<Value>
    decreases es, 0
  {
    if es == [] then [] else [Meaning(es[0].value)] + MoreMeaning(es[1..])
  }

  function FieldMeaning(f: Field): Member
    decreases f, 0
  {
    Member(PiecesMeaning(f.key), Meaning(f.elem.value))
  }

  function OthersMeaning(fs: seq<Field>): seq<Member>
    decreases fs, 0
  {
    if fs == [] then [] else [FieldMeaning(fs[0])] + OthersMeaning(fs[1..])
  }

  lemma MeaningCons(e: Elem, es: seq<Elem>)
    ensures MoreMeaning([e] + es) == [Meaning(e.value)] + MoreMeaning(es)
  {
    assert ([e] + es)[1..] == es;
  }

  lemma OthersMeaningCons(f: Field, fs: seq<Field>)
    ensures OthersMeaning([f] + fs) == [FieldMeaning(f)] + OthersMeaning(fs)
  {
    assert ([f] + fs)[1..] == fs;
  }

  // ----- Tokens ---------------------------------------------------------------

  lemma {:induction false} SkipGaps(gs: seq<Gap>, s: Text)
    requires AllBlank(GapSet(gs))
    ensures Skip(GapsText(gs) + s) == Skip(s)
  {
    if gs == [] {
      assert GapsText(gs) + s == s;
    } else {
      assert IsBlank(gs[0]) by { assert gs[0] in GapSet(gs); }
      assert GapSet(gs[1..]) <= GapSet(gs);
      var t := GapsText(gs[1..]) + s;
      assert GapsText(gs) + s == [gs[0].c] + t;
      SkipGaps(gs[1..], s);
    }
  }

  lemma {:induction false} ShiftDown(x: real, k: int, e: int)
    requires k >= 0
    ensures Shift(Shift(x, -k), e) == Shift(x, e - k)
    decreases k
  {
    if k > 0 {
      ShiftDown(x / 10.0, k - 1, e);
      ShiftStep(x, e - k);
    }
  }

  lemma {:induction false} ShiftStep(x: real, e: int)
    ensures Shift(x, e) == Shift(x / 10.0, e + 1)
    decreases if e < 0 then -e else e
  {
    if e >= 0 {
      assert Shift(x / 10.0, e + 1) == Shift(x / 10.0 * 10.0, e);
    }
  }

  lemma {:induction false} ShiftSigned(neg: bool, x: real, e: int)
    ensures Shift(Signed(neg, x), e) == Signed(neg, Shift(x, e))
    decreases if e < 0 then -e else e
  {
    if e > 0 {
      assert Signed(neg, x) * 10.0 == Signed(neg, x * 10.0);
      ShiftSigned(neg, x * 10.0, e - 1);
    } else if e < 0 {
      assert Signed(neg, x) / 10.0 == Signed(neg, x / 10.0);
      ShiftSigned(neg, x / 10.0, e + 1);
    }
  }

  /** Reading on past the point and shifting back is place value. */
  lemma {:induction false} ShiftHorner(acc: nat, frac: Digits)
    ensures Shift(Horner(acc, frac) as real, -|frac|) == acc as real + Fraction(frac)
    decreases |frac|
  {
    if frac != [] {
      var d := frac[0] - ZERO;
      var m := Horner(acc, frac) as real;
      ShiftHorner(acc * 10 + d, frac[1..]);
      ShiftLast(m, |frac| - 1);
      assert Shift(m, -|frac|) == ((acc * 10 + d) as real + Fraction(frac[1..])) / 10.0;
    }
  }

  lemma {:induction false} ShiftLast(x: real, k: int)
    requires k >= 0
    ensures Shift(x, -(k + 1)) == Shift(x, -k) / 10.0
    decreases k
  {
    if k > 0 { ShiftLast(x / 10.0, k - 1); }
  }

  /** The parser's shifted mantissa is the denoted rational. */
  lemma MantissaIsRational(n: NumParts)
    ensures Shift(Signed(n.neg, Horner(Horner(0, n.whole), n.frac) as real), ExpValue(n.exp) - |n.frac|)
         == NumValue(n)
  {
    var m := Horner(Horner(0, n.whole), n.frac) as real;
    ShiftHorner(Horner(0, n.whole), n.frac);
    ShiftSigned(n.neg, m, -|n.frac|);
    ShiftDown(Signed(n.neg, m), |n.frac|, ExpValue(n.exp));
  }

  lemma ReadDigitsOf(acc: nat, ds: Digits, rest: Text)
    requires !IsDigit(Head(rest))
    ensures ReadDigits(acc, ds + rest) == (Horner(acc, ds), |ds|) && (ds + rest)[|ds|..] == rest
  {
    DigitCountOf(ds, rest);
    Split(ds, rest);
  }

  lemma {:induction false} ExponentUnsigned(mark: Char, ds: Digits, rest: Text)
    requires IsExponentMark(mark) && !IsDigit(Head(rest)) && !IsSign(Head(rest))
    ensures Exponent([mark] + (ds + rest)) == (Horner(0, ds), 1 + |ds|)
  {
    var s := [mark] + (ds + rest);
    Split([mark], ds + rest);
    ReadDigitsOf(0, ds, rest);
    assert s[1..] == ds + rest;
    assert Head(s[1..]) == (if ds == [] then Head(rest) else ds[0]) && !IsSign(Head(s[1..]));
  }

  lemma {:induction false} ExponentSigned(mark: Char, sign: Char, ds: Digits, rest: Text)
    requires IsExponentMark(mark) && IsSign(sign) && !IsDigit(Head(rest))
    ensures var r := Exponent([mark] + ([sign] + (ds + rest)));
            r.0 == (if sign == MINUS then 0 - Horner(0, ds) else Horner(0, ds)) && r.1 == 2 + |ds|
  {
    var s := [mark] + ([sign] + (ds + rest));
    Split([mark], [sign] + (ds + rest));
    Split([sign], ds + rest);
    ReadDigitsOf(0, ds, rest);
    assert s[1..][1..] == ds + rest && Head(s[1..]) == sign;
  }

  lemma ExponentOf(e: Exp, rest: Text)
    requires !IsDigit(Head(rest)) && !IsExponentMark(Head(rest)) && !IsSign(Head(rest))
    ensures Exponent(ExpText(e) + rest) == (ExpValue(e), |ExpText(e)|)
    ensures (ExpText(e) + rest)[|ExpText(e)|..] == rest
  {
    Split(ExpText(e), rest);
    if e.NoExp? {
      assert ExpText(e) + rest == rest;
    } else {
      var mark: Char := if e.capital then 'E' as int else 'e' as int;
      var sign := SignText(e.sign);
      var ds := e.digits;
      Assoc([mark] + sign, ds, rest);
      Assoc([mark], sign, ds + rest);
      match e.sign {
        case Unsigned =>
          assert sign + (ds + rest) == ds + rest;
          ExponentUnsigned(mark, ds, rest);
        case Positive => ExponentSigned(mark, PLUS, ds, rest);
        case Negative => ExponentSigned(mark, MINUS, ds, rest);
      }
    }
  }

  lemma {:induction false} FractionOf(whole: nat, frac: Digits, rest: Text)
    requires !IsDigit(Head(rest)) && Head(rest) != POINT
    ensures var s := FracText(frac) + rest;
            && FractionLength(s) == |frac|
            && (frac != [] ==> ReadDigits(whole, s[1..]).0 == Horner(whole, frac) && s[1..][|frac|..] == rest)
            && (frac == [] ==> s == rest)
  {
    if frac == [] {
      assert FracText(frac) + rest == rest;
    } else {
      Assoc([POINT], frac, rest);
      Split([POINT], frac + rest);
      DigitCountOf(frac, rest);
      ReadDigitsOf(whole, frac, rest);
    }
  }

  /** The digit loops before the point consume `whole`. */
  lemma WholeOf(whole: WholePart, f: Text)
    requires !IsDigit(Head(f))
    ensures var s := whole + f;
            var s2 := if Head(s) == ZERO then s[1..] else s;
            var d := WholeDigits(s2);
            d.0 == Horner(0, whole) && s2[d.1..] == f
  {
    Split(whole, f);
    if whole == [] {
      assert whole + f == f;
      ReadDigitsOf(0, [], f);
    } else if whole[0] == ZERO {
      assert (whole + f)[1..] == whole[1..] + f && Horner(0, whole) == Horner(0, whole[1..]);
      ReadDigitsOf(0, whole[1..], f);
    } else {
      ReadDigitsOf(0, whole, f);
    }
  }

  /** A number must not run on into the text that follows it. */
  predicate Ends(rest: Text) {
    !IsDigit(Head(rest)) && Head(rest) != POINT && !IsExponentMark(Head(rest)) && !IsSign(Head(rest))
  }

  lemma FractionParts(neg: bool, whole: nat, s: Text, k: nat, m: nat, x: Text, e: int, used: nat, rest: Text)
    requires FractionLength(s) == k
    requires if k > 0 then ReadDigits(whole, s[1..]).0 == m && s[1..][k..] == x else m == whole && s == x
    requires Exponent(x).0 == e && Exponent(x).1 == used && x[used..] == rest
    ensures ParseFraction(neg, whole, s) == Parsed(Number(Shift(Signed(neg, m as real), e - k)), rest)
  {}

  lemma ParseFractionOf(n: NumParts, rest: Text)
    requires Ends(rest)
    ensures ParseFraction(n.neg, Horner(0, n.whole), FracText(n.frac) + (ExpText(n.exp) + rest))
         == Parsed(Number(NumValue(n)), rest)
  {
    var x := ExpText(n.exp) + rest;
    var w := Horner(0, n.whole);
    assert !IsDigit(Head(x)) && Head(x) != POINT;
    FractionOf(w, n.frac, x);
    ExponentOf(n.exp, rest);
    MantissaIsRational(n);
    assert n.frac == [] ==> Horner(w, n.frac) == w;
    FractionParts(n.neg, w, FracText(n.frac) + x, |n.frac|, Horner(w, n.frac), x, ExpValue(n.exp), |ExpText(n.exp)|, rest);
  }

  lemma ParseNumberOf(n: NumToken, rest: Text)
    requires Ends(rest)
    ensures Head(NumText(n) + rest) == MINUS || IsDigit(Head(NumText(n) + rest))
    ensures ParseNumber(NumText(n) + rest) == Parsed(Number(NumValue(n)), rest)
  {
    var sign: Text := if n.neg then [MINUS] else [];
    var f := FracText(n.frac) + (ExpText(n.exp) + rest);
    var s := sign + (n.whole + f);
    assert NumText(n) + rest == s by {
      Assoc(FracText(n.frac), ExpText(n.exp), rest);
      Assoc(n.whole, FracText(n.frac) + ExpText(n.exp), rest);
      Assoc(sign, n.whole + (FracText(n.frac) + ExpText(n.exp)), rest);
    }
    Split(sign, n.whole + f);
    assert (if Head(s) == MINUS then s[1..] else s) == n.whole + f;
    ParseFractionOf(n, rest);
    WholeOf(n.whole, f);
  }

  lemma {:induction false} BodyLengthOf(ps: seq<Piece>, rest: Text)
    ensures BodyLength(PiecesText(ps) + ([QUOTE] + rest)) == |PiecesText(ps)|
  {
    if ps == [] {
      assert PiecesText(ps) + ([QUOTE] + rest) == [QUOTE] + rest;
    } else {
      var tail := PiecesText(ps[1..]) + ([QUOTE] + rest);
      assert PiecesText(ps) + ([QUOTE] + rest) == PieceText(ps[0]) + tail;
      BodyLengthOf(ps[1..], rest);
      BodyLengthPiece(ps[0], tail);
    }
  }

  lemma BodyLengthPiece(p: Piece, s: Text)
    ensures BodyLength(PieceText(p) + s) == |PieceText(p)| + BodyLength(s)
  {
    var t := PieceText(p) + s;
    match p
    case Plain(c) => assert t[1..] == s;
    case Escape(c) => assert t[2..] == s;
    case Unicode(hex) => BodyLengthUnicode(hex, s);
    case Surrogates(hi, lo) =>
      var second := [BACKSLASH, 'u' as int] + lo + s;
      assert t == [BACKSLASH, 'u' as int] + hi + second;
      BodyLengthUnicode(hi, second);
      BodyLengthUnicode(lo, s);
  }

  lemma {:induction false} BodyLengthUnicode(hex: Text, s: Text)
    requires AllHex(hex)
    ensures BodyLength([BACKSLASH, 'u' as int] + hex + s) == 2 + |hex| + BodyLength(s)
  {
    assert ([BACKSLASH, 'u' as int] + hex + s)[2..] == hex + s;
    BodyLengthPlain(hex, s);
  }

  lemma {:induction false} BodyLengthPlain(hex: Text, s: Text)
    requires AllHex(hex)
    ensures BodyLength(hex + s) == |hex| + BodyLength(s)
  {
    if hex == [] {
      assert hex + s == s;
    } else {
      assert (hex + s)[1..] == hex[1..] + s;
      BodyLengthPlain(hex[1..], s);
    }
  }

  lemma DecodePiece(p: Piece, tail: Text)
    ensures Decode(PieceText(p) + tail) == Prepend(PieceMeaning(p), Decode(tail))
  {
    var b := PieceText(p) + tail;
    Split(PieceText(p), tail);
    match p
    case Plain(c) =>
    case Escape(c) =>
    case Unicode(hex) =>
      assert b[2..6] == hex;
      assert UnicodeEscape(b) == Some((Hex4(hex), 6));
    case Surrogates(hi, lo) =>
      assert b[2..6] == hi && b[8..12] == lo && b[6] == BACKSLASH && b[7] == 'u' as int;
      assert UnicodeEscape(b) == Some((Combine(Hex4(hi), Hex4(lo)), 12));
  }

  lemma {:induction false} DecodeOf(ps: seq<Piece>)
    ensures Decode(PiecesText(ps)) == Some(PiecesMeaning(ps))
  {
    if ps != [] {
      DecodeOf(ps[1..]);
      DecodePiece(ps[0], PiecesText(ps[1..]));
    }
  }

  lemma ParseStringOf(ps: seq<Piece>, rest: Text)
    ensures ParseString(Quoted(ps) + rest) == Parsed(PiecesMeaning(ps), rest)
  {
    var s := Quoted(ps) + rest;
    var n := |PiecesText(ps)|;
    assert s[1..] == PiecesText(ps) + ([QUOTE] + rest);
    BodyLengthOf(ps, rest);
    assert s[1..][..n] == PiecesText(ps);
    DecodeOf(ps);
    assert s[n + 2..] == rest;
  }

  // ----- Values ---------------------------------------------------------------

  predicate Delimited(t: Syntax, rest: Text) {
    t.TNumber? ==> Ends(rest)
  }

  predicate Stop(c: byte) {
    c == COMMA || c == RBRACKET || c == RBRACE
  }

  lemma {:induction false} SkipTwice(s: Text)
    ensures Skip(Skip(s)) == Skip(s)
    ensures Head(s) > SPACE ==> Skip(s) == s
  {
    if s != [] && s[0] <= SPACE { SkipTwice(s[1..]); }
  }

  /** A rendered tree starts with a visible byte that closes nothing. */
  lemma RenderStarts(t: Syntax)
    ensures Render(t) != [] && Render(t)[0] > SPACE && !Stop(Render(t)[0])
  {
  }

  /** Gaps in front of a tree are skipped down to it. */
  lemma SkipToTree(gs: seq<Gap>, t: Syntax, s: Text)
    requires AllBlank(GapSet(gs))
    ensures Skip(GapsText(gs) + (Render(t) + s)) == Render(t) + s
  {
    RenderStarts(t);
    SkipTwice(Render(t) + s);
    SkipGaps(gs, Render(t) + s);
  }

  lemma LiteralPrefix(s: Text, head: Text, rest: Text)
    requires s == head + rest
    ensures head <= s && s[|head|..] == rest
  {}

  lemma {:induction false} ArrayCase(s: Text, body: Text)
    requires s == [LBRACKET] + body
    ensures Head(Skip(body)) == RBRACKET ==> ParseValue(s) == Parsed(Array([]), Skip(body)[1..])
    ensures Head(Skip(body)) != RBRACKET && ParseItems(Skip(body)).Parsed? ==>
              ParseValue(s) == Parsed(Array(ParseItems(Skip(body)).value), ParseItems(Skip(body)).rest)
  {
    assert s[1..] == body && s[0] == LBRACKET;
  }

  lemma ObjectCase(s: Text, body: Text)
    requires s == [LBRACE] + body
    ensures Head(Skip(body)) == RBRACE ==> ParseValue(s) == Parsed(Object([]), Skip(body)[1..])
    ensures Head(Skip(body)) != RBRACE && ParseMembers(Skip(body)).Parsed? ==>
              ParseValue(s) == Parsed(Object(ParseMembers(Skip(body)).value), ParseMembers(Skip(body)).rest)
  {
    assert s[1..] == body && s[0] == LBRACE;
  }

  lemma ParseTokenOf(t: Syntax, rest: Text)
    requires t.TNull? || t.TFalse? || t.TTrue? || t.TNumber? || t.TString?
    requires Delimited(t, rest)
    ensures ParseValue(Render(t) + rest) == Parsed(Meaning(t), rest)
  {
    var s := Render(t) + rest;
    match t
    case TNull => LiteralPrefix(s, NULL_TEXT, rest);
    case TFalse =>
      LiteralPrefix(s, FALSE_TEXT, rest);
      assert s[0] == FALSE_TEXT[0];
    case TTrue =>
      LiteralPrefix(s, TRUE_TEXT, rest);
      assert s[0] == TRUE_TEXT[0];
    case TNumber(num) => ParseNumberOf(num, rest);
    case TString(ps) =>
      ParseStringOf(ps, rest);
      assert s[0] == QUOTE;
  }

  lemma ParseEmptyOf(inside: seq<Gap>, rest: Text)
    requires AllBlank(GapSet(inside))
    ensures ParseValue(Render(TEmptyArray(inside)) + rest) == Parsed(Array([]), rest)
    ensures ParseValue(Render(TEmptyObject(inside)) + rest) == Parsed(Object([]), rest)
  {
    ParseEmpty(LBRACKET, inside, RBRACKET, rest);
    ParseEmpty(LBRACE, inside, RBRACE, rest);
    ArrayCase([LBRACKET] + (GapsText(inside) + ([RBRACKET] + rest)), GapsText(inside) + ([RBRACKET] + rest));
    ObjectCase([LBRACE] + (GapsText(inside) + ([RBRACE] + rest)), GapsText(inside) + ([RBRACE] + rest));
  }

  lemma ParseEmpty(open: Char, inside: seq<Gap>, close: Char, rest: Text)
    requires AllBlank(GapSet(inside)) && close > SPACE
    ensures [open] + (GapsText(inside) + [close]) + rest == [open] + (GapsText(inside) + ([close] + rest))
    ensures var body := Skip(GapsText(inside) + ([close] + rest)); Head(body) == close && body[1..] == rest
  {
    Assoc([open], GapsText(inside) + [close], rest);
    Assoc(GapsText(inside), [close], rest);
    SkipGaps(inside, [close] + rest);
    SkipTwice([close] + rest);
    Split([close], rest);
  }

  /**
   Every grammar text is accepted, the value is the one it denotes, and reading stops exactly
   behind it.
   */
  lemma {:induction false} ParseValueOf(t: Syntax, rest: Text)
    requires AllBlank(Gaps(t)) && Delimited(t, rest)
    ensures ParseValue(Render(t) + rest) == Parsed(Meaning(t), rest)
    decreases t, 4, 0
  {
    match t
    case TEmptyArray(inside) => ParseEmptyOf(inside, rest);
    case TEmptyObject(inside) => ParseEmptyOf(inside, rest);
    case TArray(first, more) => ParseArrayOf(first, more, rest);
    case TObject(lead, others) => ParseObjectOf(lead, others, rest);
    case _ => ParseTokenOf(t, rest);
  }

  lemma {:induction false} ParseArrayOf(first: Elem, more: seq<Elem>, rest: Text)
    requires AllBlank(Gaps(TArray(first, more)))
    ensures ParseValue(Render(TArray(first, more)) + rest) == Parsed(Meaning(TArray(first, more)), rest)
    decreases TArray(first, more), 1, 0
  {
    var t := TArray(first, more);
    var body := RenderElem(first) + (RenderMore(more) + rest);
    assert Render(t) + rest == [LBRACKET] + body by {
      Assoc([LBRACKET], RenderElem(first) + RenderMore(more), rest);
      Assoc(RenderElem(first), RenderMore(more), rest);
    }
    assert forall i | 0 <= i < |more| :: more[i] in more;
    ParseItemsOf(t, first, more, rest);
    ArrayCase([LBRACKET] + body, body);
  }

  lemma {:induction false} ParseObjectOf(lead: Field, others: seq<Field>, rest: Text)
    requires AllBlank(Gaps(TObject(lead, others)))
    ensures ParseValue(Render(TObject(lead, others)) + rest) == Parsed(Meaning(TObject(lead, others)), rest)
    decreases TObject(lead, others), 1, 0
  {
    var t := TObject(lead, others);
    var body := RenderField(lead) + (RenderOthers(others) + rest);
    assert Render(t) + rest == [LBRACE] + body by {
      Assoc([LBRACE], RenderField(lead) + RenderOthers(others), rest);
      Assoc(RenderField(lead), RenderOthers(others), rest);
    }
    assert forall i | 0 <= i < |others| :: others[i] in others;
    ParseMembersOf(t, lead, others, rest);
    ObjectCase([LBRACE] + body, body);
  }

  /** Behind white space, `s` starts with a value, which white space separates from `next`. */
  ghost predicate ReadsValue(s: Text, v: Value, next: Text) {
    var t := Skip(s);
    var r := ParseValue(t);
    t != [] && !Stop(t[0]) && r.Parsed? && r.value == v && Skip(r.rest) == next
  }

  ghost predicate ReadsItems(s: Text, vs: seq<Value>, rest: Text) {
    Head(Skip(s)) != RBRACKET && ParseItems(s) == ParseItems(Skip(s)) == Parsed(vs, rest)
  }

  ghost predicate ReadsMember(s: Text, m: Member, next: Text) {
    var r := ParseMember(s);
    && Head(Skip(s)) == QUOTE && r == ParseMember(Skip(s))
    && r.Parsed? && r.value == m && Skip(r.rest) == next
  }

  ghost predicate ReadsMembers(s: Text, ms: seq<Member>, rest: Text) {
    Head(Skip(s)) == QUOTE && ParseMembers(s) == ParseMembers(Skip(s)) == Parsed(ms, rest)
  }

  /** One element with its gaps, in front of a comma, bracket or brace. */
  lemma {:induction false} ParseElemOf(e: Elem, s: Text)
    requires AllBlank(ElemGaps(e)) && Stop(Head(s))
    ensures ReadsValue(RenderElem(e) + s, Meaning(e.value), s)
    decreases e, 2, 0
  {
    var tail := GapsText(e.after) + s;
    assert RenderElem(e) + s == GapsText(e.before) + (Render(e.value) + tail) by {
      Assoc(GapsText(e.before), Render(e.value) + GapsText(e.after), s);
      Assoc(Render(e.value), GapsText(e.after), s);
    }
    GapsEnd(e.after, s);
    ParseValueOf(e.value, tail);
    ElemParts(e.before, e.value, e.after, s);
  }

  lemma {:induction false} ElemParts(before: seq<Gap>, t: Syntax, after: seq<Gap>, s: Text)
    requires AllBlank(GapSet(before)) && AllBlank(GapSet(after)) && Stop(Head(s))
    requires ParseValue(Render(t) + (GapsText(after) + s)) == Parsed(Meaning(t), GapsText(after) + s)
    ensures ReadsValue(GapsText(before) + (Render(t) + (GapsText(after) + s)), Meaning(t), s)
  {
    RenderStarts(t);
    SkipToTree(before, t, GapsText(after) + s);
    SkipTwice(s);
    SkipGaps(after, s);
  }

  lemma GapsEnd(gs: seq<Gap>, s: Text)
    requires AllBlank(GapSet(gs)) && Stop(Head(s))
    ensures Ends(GapsText(gs) + s)
  {
    if gs != [] { assert gs[0] in GapSet(gs); }
  }

  /** The last turn of the array loop. */
  lemma ItemsEnd(s: Text, v: Value, rest: Text)
    requires ReadsValue(s, v, [RBRACKET] + rest)
    ensures ReadsItems(s, [v], rest)
  {
    SkipTwice(s);
  }

  /** Any other turn. */
  lemma ItemsStep(s: Text, v: Value, next: Text, vs: seq<Value>, rest: Text)
    requires ReadsValue(s, v, [COMMA] + next) && ReadsItems(next, vs, rest)
    ensures ReadsItems(s, [v] + vs, rest)
  {
    SkipTwice(s);
    assert ([COMMA] + next)[1..] == next;
  }

  lemma {:induction false} ParseItemsOf(whole: Syntax, e: Elem, es: seq<Elem>, rest: Text)
    requires e < whole && AllBlank(ElemGaps(e))
    requires forall i | 0 <= i < |es| :: es[i] < whole && AllBlank(ElemGaps(es[i]))
    ensures ReadsItems(RenderElem(e) + (RenderMore(es) + rest), [Meaning(e.value)] + MoreMeaning(es), rest)
    decreases whole, 0, |es|
  {
    var v := Meaning(e.value);
    if es == [] {
      ParseElemOf(e, [RBRACKET] + rest);
      ItemsEnd(RenderElem(e) + ([RBRACKET] + rest), v, rest);
      assert [v] + MoreMeaning(es) == [v];
    } else {
      var next := RenderElem(es[0]) + (RenderMore(es[1..]) + rest);
      assert RenderMore(es) + rest == [COMMA] + next;
      ParseElemOf(e, [COMMA] + next);
      ParseItemsOf(whole, es[0], es[1..], rest);
      ItemsStep(RenderElem(e) + ([COMMA] + next), v, next, MoreMeaning(es), rest);
    }
  }

  /** A pair read from its three parts. */
  lemma {:induction false} MemberStep(s: Text, name: Text, afterName: Text, value: Text, v: Value, next: Text)
    requires Head(Skip(s)) == QUOTE
    requires ParseString(Skip(s)) == Parsed(name, afterName) && Skip(afterName) == [COLON] + value
    requires ReadsValue(value, v, next)
    ensures ReadsMember(s, Member(name, v), next)
  {
    SkipTwice(s);
    assert ([COLON] + value)[1..] == value;
  }

  lemma {:induction false} ParseMemberOf(f: Field, s: Text)
    requires AllBlank(FieldGaps(f)) && Stop(Head(s))
    ensures ReadsMember(RenderField(f) + s, FieldMeaning(f), s)
    decreases f, 3, 0
  {
    var value := RenderElem(f.elem) + s;
    var colon := [COLON] + value;
    var afterName := GapsText(f.gap) + colon;
    var key := Quoted(f.key) + afterName;
    assert RenderField(f) + s == GapsText(f.before) + key;
    SkipGaps(f.before, key);
    SkipTwice(key);
    ParseStringOf(f.key, afterName);
    SkipGaps(f.gap, colon);
    SkipTwice(colon);
    ParseElemOf(f.elem, s);
    MemberStep(GapsText(f.before) + key, PiecesMeaning(f.key), afterName, value, Meaning(f.elem.value), s);
  }

  /** The last turn of the object loop. */
  lemma MembersEnd(s: Text, m: Member, rest: Text)
    requires ReadsMember(s, m, [RBRACE] + rest)
    ensures ReadsMembers(s, [m], rest)
  {}

  /** Any other turn. */
  lemma MembersStep(s: Text, m: Member, next: Text, ms: seq<Member>, rest: Text)
    requires ReadsMember(s, m, [COMMA] + next) && ReadsMembers(next, ms, rest)
    ensures ReadsMembers(s, [m] + ms, rest)
  {
    assert ([COMMA] + next)[1..] == next;
  }

  lemma {:induction false} ParseMembersOf(whole: Syntax, f: Field, fs: seq<Field>, rest: Text)
    requires f < whole && AllBlank(FieldGaps(f))
    requires forall i | 0 <= i < |fs| :: fs[i] < whole && AllBlank(FieldGaps(fs[i]))
    ensures ReadsMembers(RenderField(f) + (RenderOthers(fs) + rest), [FieldMeaning(f)] + OthersMeaning(fs), rest)
    decreases whole, 0, |fs|
  {
    var m := FieldMeaning(f);
    if fs == [] {
      ParseMemberOf(f, [RBRACE] + rest);
      MembersEnd(RenderField(f) + ([RBRACE] + rest), m, rest);
      assert [m] + OthersMeaning(fs) == [m];
    } else {
      var next := RenderField(fs[0]) + (RenderOthers(fs[1..]) + rest);
      Assoc([COMMA], RenderField(fs[0]) + RenderOthers(fs[1..]), rest);
      Assoc(RenderField(fs[0]), RenderOthers(fs[1..]), rest);
      ParseMemberOf(f, [COMMA] + next);
      ParseMembersOf(whole, fs[0], fs[1..], rest);
      MembersStep(RenderField(f) + ([COMMA] + next), m, next, OthersMeaning(fs), rest);
    }
  }

  function DocumentText(lead: seq<Gap>, t: Syntax, trail: Text): Text {
    GapsText(lead) + (Render(t) + trail)
  }

  /** A whole document: white space around one value. */
  lemma ParseDocument(lead: seq<Gap>, t: Syntax, trail: seq<Gap>, toEnd: bool)
    requires AllBlank(Gaps(t)) && AllBlank(GapSet(lead)) && AllBlank(GapSet(trail))
    ensures Parse(DocumentText(lead, t, GapsText(trail)), toEnd)
         == Parsed(Meaning(t), if toEnd then [] else GapsText(trail))
  {
    if trail != [] { assert trail[0] in GapSet(trail); }
    SkipToTree(lead, t, GapsText(trail));
    ParseValueOf(t, GapsText(trail));
    SkipGaps(trail, []);
    assert GapsText(trail) + [] == GapsText(trail);
  }
}
