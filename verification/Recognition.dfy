/**
 The converse of `Grammar`: whatever the parser accepts is the text of a syntax tree with that
 value, or a string that the end of the text closes.
 */
module Recognition {
  import opened Bytes
  import opened Json
  import opened Grammar

  // ----- Tokens ---------------------------------------------------------------------

  /** The bytes that are skipped are blanks. */
  lemma {:induction false} SkippedIs(s: Text) returns (gs: seq<Gap>)
    ensures AllBlank(GapSet(gs)) && s == GapsText(gs) + Skip(s)
  {
    gs := [];
    if s != [] && s[0] <= SPACE {
      var more := SkippedIs(s[1..]);
      gs := [Blank(s[0])] + more;
      GapsCons(Blank(s[0]), more);
      assert s == [s[0]] + s[1..];
      Assoc([s[0]], GapsText(more), Skip(s[1..]));
    }
  }

  lemma GapsCons(g: Gap, gs: seq<Gap>)
    ensures GapsText([g] + gs) == GapText(g) + GapsText(gs) && GapSet([g] + gs) == {g} + GapSet(gs)
  {
    assert ([g] + gs)[1..] == gs;
  }

  /** The digits at the front. */
  lemma DigitsAre(acc: nat, s: Text) returns (ds: Digits)
    ensures ReadDigits(acc, s) == (Horner(acc, ds), |ds|) && DigitCount(s) == |ds| && s == ds + s[|ds|..]
  {
    DigitCountIsRun(s);
    ds := s[..DigitCount(s)];
  }

  lemma ExponentIs(s: Text) returns (e: Exp)
    ensures ExpValue(e) == Exponent(s).0 && s == ExpText(e) + s[Exponent(s).1..]
  {
    e := NoExp;
    if IsExponentMark(Head(s)) {
      if IsSign(Head(s[1..])) { e := SignedIs(s); } else { e := UnsignedIs(s); }
    }
  }

  lemma UnsignedIs(s: Text) returns (e: Exp)
    requires IsExponentMark(Head(s)) && !IsSign(Head(s[1..]))
    ensures ExpValue(e) == Exponent(s).0 && s == ExpText(e) + s[Exponent(s).1..]
  {
    var ds := DigitsAre(0, s[1..]);
    e := Exp(s[0] == 'E' as int, Unsigned, ds);
    Joined([s[0]], [], ds, s[1..][|ds|..]);
    assert s == [s[0]] + s[1..];
  }

  lemma SignedIs(s: Text) returns (e: Exp)
    requires IsExponentMark(Head(s)) && IsSign(Head(s[1..]))
    ensures ExpValue(e) == Exponent(s).0 && s == ExpText(e) + s[Exponent(s).1..]
  {
    var ds := DigitsAre(0, s[1..][1..]);
    e := Exp(s[0] == 'E' as int, if s[1] == PLUS then Positive else Negative, ds);
    Joined([s[0]], [s[1]], ds, s[1..][1..][|ds|..]);
    assert s == [s[0]] + s[1..] && s[1..] == [s[1]] + s[1..][1..];
  }

  lemma Joined(mark: Text, sign: Text, ds: Text, rest: Text)
    ensures mark + (sign + (ds + rest)) == mark + sign + ds + rest
  {}

  /** Everything from the point on. */
  lemma FractionIs(neg: bool, digits: WholePart, s: Text) returns (n: NumParts, rest: Text)
    ensures n.neg == neg && n.whole == digits
    ensures ParseFraction(neg, Horner(0, digits), s) == Parsed(Number(NumValue(n)), rest)
    ensures s == FracText(n.frac) + (ExpText(n.exp) + rest)
  {
    var w := Horner(0, digits);
    var frac, t := PointIs(w, s);
    var e := ExponentIs(t);
    rest := t[Exponent(t).1..];
    n := NumParts(neg, digits, frac, e);
    FractionValue(n, s, t);
  }

  lemma FractionValue(n: NumParts, s: Text, t: Text)
    requires FractionLength(s) == |n.frac| && Exponent(t).0 == ExpValue(n.exp)
    requires if n.frac != [] then ReadDigits(Horner(0, n.whole), s[1..]).0 == Horner(Horner(0, n.whole), n.frac) && s[1..][|n.frac|..] == t
             else s == t
    ensures ParseFraction(n.neg, Horner(0, n.whole), s) == Parsed(Number(NumValue(n)), t[Exponent(t).1..])
  {
    var w := Horner(0, n.whole);
    MantissaIsRational(n);
    assert n.frac == [] ==> Horner(w, n.frac) == w;
    FractionParts(n.neg, w, s, |n.frac|, Horner(w, n.frac), t, Exponent(t).0, Exponent(t).1, t[Exponent(t).1..]);
  }

  lemma PointIs(whole: nat, s: Text) returns (frac: Digits, t: Text)
    ensures FractionLength(s) == |frac| && s == FracText(frac) + t
    ensures if frac != [] then ReadDigits(whole, s[1..]).0 == Horner(whole, frac) && s[1..][|frac|..] == t else s == t
  {
    frac, t := [], s;
    if FractionLength(s) > 0 {
      frac := DigitsAre(whole, s[1..]);
      t := s[1..][|frac|..];
      Assoc([POINT], frac, t);
      assert s == [POINT] + s[1..];
    } else {
      assert FracText(frac) + t == t;
    }
  }

  lemma NumberIs(s: Text) returns (n: NumToken, rest: Text)
    requires Head(s) == MINUS || IsDigit(Head(s))
    ensures ParseNumber(s) == Parsed(Number(NumValue(n)), rest) && s == NumText(n) + rest
  {
    var neg := Head(s) == MINUS;
    var s1 := if neg then s[1..] else s;
    var digits, f := WholeIs(s1);
    n, rest := FractionIs(neg, digits, f);
    var sign: Text := if neg then [MINUS] else [];
    assert s == sign + s1;
    Regroup(sign, digits, FracText(n.frac), ExpText(n.exp), rest);
  }

  /** At most one zero, and the digits behind it. */
  lemma WholeIs(s: Text) returns (digits: WholePart, f: Text)
    ensures var s2 := if Head(s) == ZERO then s[1..] else s;
            WholeDigits(s2).0 == Horner(0, digits) && s2[WholeDigits(s2).1..] == f
    ensures s == digits + f && (IsDigit(Head(s)) ==> digits != [])
  {
    var zero: Text := if Head(s) == ZERO then [ZERO] else [];
    var s2 := if Head(s) == ZERO then s[1..] else s;
    var ds: Digits := [];
    f := s2;
    if Head(s2) != ZERO {
      ds := DigitsAre(0, s2);
      f := s2[|ds|..];
    }
    LeadingZero(zero, ds);
    digits := zero + ds;
    Assoc(zero, ds, f);
    assert s == zero + s2;
  }

  lemma LeadingZero(zero: Text, ds: Digits)
    requires zero == [] || zero == [ZERO]
    ensures AllDigits(zero + ds) && Horner(0, zero + ds) == Horner(0, ds)
  {
    if zero == [] { assert zero + ds == ds; } else { assert (zero + ds)[1..] == ds; }
  }

  lemma Regroup(sign: Text, ds: Text, f: Text, e: Text, rest: Text)
    ensures sign + (ds + (f + (e + rest))) == sign + (ds + (f + e)) + rest
  {}

  // ----- Strings --------------------------------------------------------------------

  /** The first piece of a body. */
  lemma PieceIs(b: Text) returns (p: Piece)
    requires b != [] && b[0] != QUOTE && Decode(b).Some?
    ensures PieceText(p) <= b && Decode(b) == Prepend(PieceMeaning(p), Decode(b[|PieceText(p)|..]))
  {
    if b[0] != BACKSLASH {
      p := Plain(b[0]);
    } else if b[1] != 'u' as int {
      p := Escape(b[1]);
    } else {
      var (u, n) := UnicodeEscape(b).value;
      if n == 6 {
        p := Unicode(b[2..6]);
        assert b[..6] == PieceText(p);
      } else {
        p := Surrogates(b[2..6], b[8..12]);
        assert b[..12] == PieceText(p);
      }
    }
  }

  /** A body without a bare quote that decodes is a sequence of pieces. */
  lemma {:induction false} BodyIs(b: Text) returns (ps: seq<Piece>)
    requires BodyLength(b) == |b| && Decode(b).Some?
    ensures PiecesText(ps) == b && PiecesMeaning(ps) == Decode(b).value
    decreases |b|
  {
    ps := [];
    if b != [] {
      var p := PieceIs(b);
      var tail := b[|PieceText(p)|..];
      assert b == PieceText(p) + tail;
      BodyLengthPiece(p, tail);
      var more := BodyIs(tail);
      ps := [p] + more;
      assert ps[1..] == more;
    }
  }

  /** The end of a body depends on nothing behind it. */
  lemma {:induction false} BodyLengthOfBody(s: Text)
    ensures BodyLength(s[..BodyLength(s)]) == BodyLength(s)
    decreases |s|
  {
    var n := BodyLength(s);
    if s != [] && s[0] != QUOTE {
      if s[0] == BACKSLASH && |s| > 1 {
        BodyLengthOfBody(s[2..]);
        assert s[..n][2..] == s[2..][..n - 2];
      } else {
        BodyLengthOfBody(s[1..]);
        assert s[..n][1..] == s[1..][..n - 1];
      }
    }
  }

  /** No quote closes the string. */
  predicate Unterminated(s: Text) {
    Head(s) == QUOTE && BodyLength(s[1..]) + 1 == |s|
  }

  lemma StringIs(s: Text) returns (ps: seq<Piece>)
    requires ParseString(s).Parsed?
    ensures ParseString(s).value == PiecesMeaning(ps)
    ensures if Unterminated(s) then s == [QUOTE] + PiecesText(ps) && ParseString(s).rest == []
            else s == Quoted(ps) + ParseString(s).rest
  {
    var n := BodyLength(s[1..]);
    BodyLengthOfBody(s[1..]);
    ps := BodyIs(s[1..][..n]);
    QuotesAround(s, n);
  }

  lemma QuotesAround(s: Text, n: nat)
    requires Head(s) == QUOTE && n < |s| && (n + 1 < |s| ==> s[n + 1] == QUOTE)
    ensures if n + 1 == |s| then s == [QUOTE] + s[1..][..n] else s == [QUOTE] + s[1..][..n] + [QUOTE] + s[n + 2..]
  {}

  // ----- Values ---------------------------------------------------------------------

  /** The result of reading; the triggers keep the parser's functions folded. */
  ghost predicate ValueRead(s: Text, r: Parsed<Value>) {
    forall x {:trigger ParseValue(x)} :: x == s ==> ParseValue(x) == r
  }

  ghost predicate ItemsRead(s: Text, r: Parsed<seq<Value>>) {
    forall x {:trigger ParseItems(x)} :: x == s ==> ParseItems(x) == r
  }

  ghost predicate MemberRead(s: Text, r: Parsed<Member>) {
    forall x {:trigger ParseMember(x)} :: x == s ==> ParseMember(x) == r
  }

  ghost predicate MembersRead(s: Text, r: Parsed<seq<Member>>) {
    forall x {:trigger ParseMembers(x)} :: x == s ==> ParseMembers(x) == r
  }

  /** The text in front of the rest is that of a tree with the value read. */
  lemma {:induction false} ValueIs(s: Text, r: Parsed<Value>) returns (t: Syntax)
    requires ValueRead(s, r) && r.Parsed? && !Unterminated(s)
    ensures AllBlank(Gaps(t)) && Meaning(t) == r.value && s == Render(t) + r.rest
    decreases |s|, 1
  {
    if Head(s) == LBRACKET {
      t := ArrayIs(s, r);
    } else if Head(s) == LBRACE {
      t := ObjectIs(s, r);
    } else if Head(s) == QUOTE {
      StringBranch(s, r);
      var ps := StringIs(s);
      t := TString(ps);
    } else if Head(s) == MINUS || IsDigit(Head(s)) {
      var n, rest := NumberIs(s);
      NumberBranch(s, r, Parsed(Number(NumValue(n)), rest));
      t := TNumber(n);
    } else {
      t := LiteralIs(s, r);
    }
  }

  lemma StringBranch(s: Text, r: Parsed<Value>)
    requires ValueRead(s, r) && r.Parsed? && Head(s) == QUOTE
    ensures ParseString(s).Parsed? && r == Parsed(String(ParseString(s).value), ParseString(s).rest)
  {
    assert ParseValue(s) == r;
  }

  lemma NumberBranch(s: Text, r: Parsed<Value>, r': Parsed<Value>)
    requires ValueRead(s, r) && (Head(s) == MINUS || IsDigit(Head(s))) && r' == ParseNumber(s)
    ensures r == r'
  {
    assert !(NULL_TEXT <= s) by { assert s[0] != NULL_TEXT[0]; }
    assert !(FALSE_TEXT <= s) by { assert s[0] != FALSE_TEXT[0]; }
    assert !(TRUE_TEXT <= s) by { assert s[0] != TRUE_TEXT[0]; }
    assert ParseValue(s) == r;
  }

  lemma LiteralIs(s: Text, r: Parsed<Value>) returns (t: Syntax)
    requires ValueRead(s, r) && r.Parsed? && Head(s) !in [LBRACKET, LBRACE, QUOTE, MINUS] && !IsDigit(Head(s))
    ensures AllBlank(Gaps(t)) && Meaning(t) == r.value && s == Render(t) + r.rest
  {
    assert ParseValue(s) == r;
    t := if NULL_TEXT <= s then TNull else if FALSE_TEXT <= s then TFalse else TTrue;
    if NULL_TEXT <= s { assert s == s[..4] + s[4..]; }
    else if FALSE_TEXT <= s { assert s == s[..5] + s[5..]; }
    else { assert s == s[..4] + s[4..]; }
  }

  lemma {:induction false} ArrayIs(s: Text, r: Parsed<Value>) returns (t: Syntax)
    requires ValueRead(s, r) && r.Parsed? && Head(s) == LBRACKET
    ensures AllBlank(Gaps(t)) && Meaning(t) == r.value && s == Render(t) + r.rest
    decreases |s|, 0
  {
    var body := s[1..];
    var q := ArrayParts(s, body, r);
    if Head(Skip(body)) == RBRACKET {
      var gs := SkippedIs(body);
      t := TEmptyArray(gs);
      Closing(s, LBRACKET, gs, Skip(body), RBRACKET);
    } else {
      var e, es := ItemsIs(body, q);
      t := TArray(e, es);
      BlankElems(e, es);
      Around(LBRACKET, RenderElem(e), RenderMore(es), q.rest);
    }
  }

  /** Blanks in front of the first item are skipped again. */
  lemma {:induction false} ArrayParts(s: Text, body: Text, r: Parsed<Value>) returns (q: Parsed<seq<Value>>)
    requires ValueRead(s, r) && r.Parsed? && Head(s) == LBRACKET && body == s[1..]
    ensures s == [LBRACKET] + body && ItemsRead(body, q)
    ensures if Head(Skip(body)) == RBRACKET then r == Parsed(Array([]), Skip(body)[1..])
            else q.Parsed? && r == Parsed(Array(q.value), q.rest)
  {
    q := ParseItems(body);
    SkipTwice(body);
    assert ParseValue(s) == r && ParseItems(Skip(body)) == q;
  }

  lemma {:induction false} ObjectIs(s: Text, r: Parsed<Value>) returns (t: Syntax)
    requires ValueRead(s, r) && r.Parsed? && Head(s) == LBRACE
    ensures AllBlank(Gaps(t)) && Meaning(t) == r.value && s == Render(t) + r.rest
    decreases |s|, 0
  {
    var body := s[1..];
    var q := ObjectParts(s, body, r);
    if Head(Skip(body)) == RBRACE {
      var gs := SkippedIs(body);
      t := TEmptyObject(gs);
      Closing(s, LBRACE, gs, Skip(body), RBRACE);
    } else {
      var f, fs := MembersIs(body, q);
      t := TObject(f, fs);
      BlankFields(f, fs);
      Around(LBRACE, RenderField(f), RenderOthers(fs), q.rest);
    }
  }

  lemma ObjectParts(s: Text, body: Text, r: Parsed<Value>) returns (q: Parsed<seq<Member>>)
    requires ValueRead(s, r) && r.Parsed? && Head(s) == LBRACE && body == s[1..]
    ensures s == [LBRACE] + body && MembersRead(body, q)
    ensures if Head(Skip(body)) == RBRACE then r == Parsed(Object([]), Skip(body)[1..])
            else q.Parsed? && r == Parsed(Object(q.value), q.rest)
  {
    q := ParseMembers(body);
    SameMembers(body);
    assert ParseValue(s) == r;
  }

  lemma {:induction false} SameMembers(body: Text)
    ensures ParseMembers(Skip(body)) == ParseMembers(body)
  {
    SkipTwice(body);
    assert ParseMember(Skip(body)) == ParseMember(body);
  }

  lemma Closing(s: Text, open: Char, gs: seq<Gap>, s1: Text, close: Char)
    requires s == [open] + (GapsText(gs) + s1) && Head(s1) == close
    ensures s == [open] + (GapsText(gs) + [close]) + s1[1..]
  {
    assert s1 == [close] + s1[1..];
  }

  lemma Around(open: Char, x: Text, y: Text, rest: Text)
    ensures [open] + (x + (y + rest)) == [open] + (x + y) + rest
  {}

  /** A value with the blanks around it; `next` is what stands behind them. */
  lemma {:induction false} ElemIs(s: Text, r: Parsed<Value>) returns (e: Elem)
    requires ValueRead(Skip(s), r) && r.Parsed? && Skip(r.rest) != []
    ensures AllBlank(ElemGaps(e)) && Meaning(e.value) == r.value && s == RenderElem(e) + Skip(r.rest)
    decreases |s|, 2
  {
    var before := SkippedIs(s);
    var after := SkippedIs(r.rest);
    if Unterminated(Skip(s)) { OpenEnds(Skip(s), r); }
    var t := ValueIs(Skip(s), r);
    e := Elem(before, t, after);
    Between(GapsText(before), Render(t), GapsText(after), Skip(r.rest));
  }

  lemma Between(before: Text, x: Text, after: Text, rest: Text)
    ensures before + (x + (after + rest)) == before + (x + after) + rest
  {}

  /** Behind a string that is not closed there is nothing. */
  lemma OpenEnds(s: Text, r: Parsed<Value>)
    requires ValueRead(s, r) && r.Parsed? && Unterminated(s)
    ensures r.rest == []
  {
    StringBranch(s, r);
    var ps := StringIs(s);
  }

  lemma {:induction false} ItemsIs(s: Text, r: Parsed<seq<Value>>) returns (e: Elem, es: seq<Elem>)
    requires ItemsRead(s, r) && r.Parsed?
    ensures AllBlank(ElemGaps(e)) && ElemsBlank(es) && r.value == [Meaning(e.value)] + MoreMeaning(es)
    ensures s == RenderElem(e) + (RenderMore(es) + r.rest)
    decreases |s|, 3
  {
    var first, s2, more := ItemsParts(s, r);
    e := ElemIs(s, first);
    es := [];
    if Head(s2) == COMMA {
      var e', es' := ItemsIs(s2[1..], more);
      es := [e'] + es';
      MoreIs(e', es', s2, more.rest);
    } else {
      assert s2 == [RBRACKET] + s2[1..];
    }
  }

  /** The first item, what stands behind it, and the items after a comma. */
  lemma {:induction false} ItemsParts(s: Text, r: Parsed<seq<Value>>) returns (first: Parsed<Value>, s2: Text, more: Parsed<seq<Value>>)
    requires ItemsRead(s, r) && r.Parsed?
    ensures ValueRead(Skip(s), first) && first.Parsed? && s2 == Skip(first.rest) && 0 < |s2| < |s|
    ensures if s2[0] == COMMA then ItemsRead(s2[1..], more) && more.Parsed? && r == Parsed([first.value] + more.value, more.rest)
            else s2[0] == RBRACKET && r == Parsed([first.value], s2[1..])
  {
    assert ParseItems(s) == r;
    first := ParseValue(Skip(s));
    s2 := Skip(first.rest);
    more := ParseItems(s2[1..]);
  }

  ghost predicate ElemsBlank(es: seq<Elem>) {
    forall i | 0 <= i < |es| :: AllBlank(ElemGaps(es[i]))
  }

  lemma MoreIs(e: Elem, es: seq<Elem>, s: Text, rest: Text)
    requires Head(s) == COMMA && s[1..] == RenderElem(e) + (RenderMore(es) + rest)
    ensures s == RenderMore([e] + es) + rest && MoreMeaning([e] + es) == [Meaning(e.value)] + MoreMeaning(es)
  {
    RenderMoreCons(e, es);
    MeaningCons(e, es);
    assert s == [COMMA] + s[1..];
    Around(COMMA, RenderElem(e), RenderMore(es), rest);
  }

  lemma BlankElems(e: Elem, es: seq<Elem>)
    requires AllBlank(ElemGaps(e)) && ElemsBlank(es)
    ensures AllBlank(Gaps(TArray(e, es)))
  {}

  ghost predicate FieldsBlank(fs: seq<Field>) {
    forall i | 0 <= i < |fs| :: AllBlank(FieldGaps(fs[i]))
  }

  lemma BlankFields(f: Field, fs: seq<Field>)
    requires AllBlank(FieldGaps(f)) && FieldsBlank(fs)
    ensures AllBlank(Gaps(TObject(f, fs)))
  {}

  lemma {:induction false} MemberIs(s: Text, r: Parsed<Member>) returns (f: Field)
    requires MemberRead(s, r) && r.Parsed? && Skip(r.rest) != []
    ensures AllBlank(FieldGaps(f)) && FieldMeaning(f) == r.value && s == RenderField(f) + Skip(r.rest)
    decreases |s|, 3
  {
    var before := SkippedIs(s);
    var k, s1, v := MemberParts(s, r);
    var key := StringIs(Skip(s));
    var gap := SkippedIs(k.rest);
    var elem := ElemIs(s1[1..], v);
    f := Field(before, key, gap, elem);
    Parts(GapsText(before), Quoted(key), GapsText(gap), s1, RenderElem(elem), Skip(r.rest));
  }

  /** The name, what stands behind it, and the value after a colon. */
  lemma MemberParts(s: Text, r: Parsed<Member>) returns (k: Parsed<Text>, s1: Text, v: Parsed<Value>)
    requires MemberRead(s, r) && r.Parsed?
    ensures k == ParseString(Skip(s)) && k.Parsed? && s1 == Skip(k.rest) && Head(s1) == COLON && |s1| < |s|
    ensures ValueRead(Skip(s1[1..]), v) && v.Parsed? && r == Parsed(Member(k.value, v.value), v.rest)
    ensures !Unterminated(Skip(s))
  {
    assert ParseMember(s) == r;
    k := ParseString(Skip(s));
    s1 := Skip(k.rest);
    v := ParseValue(Skip(s1[1..]));
    if Unterminated(Skip(s)) { var ps := StringIs(Skip(s)); }
  }

  lemma Parts(before: Text, key: Text, gap: Text, s1: Text, elem: Text, rest: Text)
    requires Head(s1) == COLON && s1[1..] == elem + rest
    ensures before + (key + (gap + s1)) == before + (key + (gap + ([COLON] + elem))) + rest
  {
    assert s1 == [COLON] + s1[1..];
  }

  lemma {:induction false} MembersIs(s: Text, r: Parsed<seq<Member>>) returns (f: Field, fs: seq<Field>)
    requires MembersRead(s, r) && r.Parsed?
    ensures AllBlank(FieldGaps(f)) && FieldsBlank(fs) && r.value == [FieldMeaning(f)] + OthersMeaning(fs)
    ensures s == RenderField(f) + (RenderOthers(fs) + r.rest)
    decreases |s|, 4
  {
    var first, s2, more := MembersParts(s, r);
    f := MemberIs(s, first);
    fs := [];
    if Head(s2) == COMMA {
      var f', fs' := MembersIs(s2[1..], more);
      fs := [f'] + fs';
      OthersIs(f', fs', s2, more.rest);
    } else {
      assert s2 == [RBRACE] + s2[1..];
    }
  }

  /** The first member, what stands behind it, and the members after a comma. */
  lemma {:induction false} MembersParts(s: Text, r: Parsed<seq<Member>>) returns (first: Parsed<Member>, s2: Text, more: Parsed<seq<Member>>)
    requires MembersRead(s, r) && r.Parsed?
    ensures MemberRead(s, first) && first.Parsed? && s2 == Skip(first.rest) && 0 < |s2| < |s|
    ensures if s2[0] == COMMA then MembersRead(s2[1..], more) && more.Parsed? && r == Parsed([first.value] + more.value, more.rest)
            else s2[0] == RBRACE && r == Parsed([first.value], s2[1..])
  {
    assert ParseMembers(s) == r;
    first := ParseMember(s);
    s2 := Skip(first.rest);
    more := ParseMembers(s2[1..]);
  }

  lemma OthersIs(f: Field, fs: seq<Field>, s: Text, rest: Text)
    requires Head(s) == COMMA && s[1..] == RenderField(f) + (RenderOthers(fs) + rest)
    ensures s == RenderOthers([f] + fs) + rest && OthersMeaning([f] + fs) == [FieldMeaning(f)] + OthersMeaning(fs)
  {
    RenderOthersCons(f, fs);
    OthersMeaningCons(f, fs);
    assert s == [COMMA] + s[1..];
    Around(COMMA, RenderField(f), RenderOthers(fs), rest);
  }

  // ----- Strings that are not closed ----------------------------------------------------

  /** A string whose body runs to the end of the text is accepted exactly as if a quote followed. */
  lemma {:induction false} UnterminatedString(b: Text)
    requires BodyLength(b) == |b|
    ensures ParseString([QUOTE] + b) == if Decode(b).Some? then Parsed(Decode(b).value, []) else Malformed([QUOTE] + b)
    ensures Decode(b).Some? ==> ParseString([QUOTE] + b + [QUOTE]) == ParseString([QUOTE] + b)
  {
    var s := [QUOTE] + b;
    assert s[1..] == b && b[..|b|] == b;
    if Decode(b).Some? {
      var ps := BodyIs(b);
      ParseStringOf(ps, []);
      assert Quoted(ps) + [] == s + [QUOTE];
    }
  }

  lemma {:induction false} OpenLength(ps: seq<Piece>)
    ensures BodyLength(PiecesText(ps)) == |PiecesText(ps)|
  {
    if ps != [] {
      OpenLength(ps[1..]);
      BodyLengthPiece(ps[0], PiecesText(ps[1..]));
    }
  }

  function OpenText(lead: seq<Gap>, ps: seq<Piece>): Text {
    GapsText(lead) + ([QUOTE] + PiecesText(ps))
  }

  lemma {:induction false} OpenIsAccepted(lead: seq<Gap>, ps: seq<Piece>, toEnd: bool)
    requires AllBlank(GapSet(lead))
    ensures var s := OpenText(lead, ps);
            Parse(s, toEnd) == Parsed(String(PiecesMeaning(ps)), []) && Unterminated(Skip(s))
  {
    var s := [QUOTE] + PiecesText(ps);
    SkipGaps(lead, s);
    SkipTwice(s);
    OpenLength(ps);
    DecodeOf(ps);
    UnterminatedString(PiecesText(ps));
    assert s[1..] == PiecesText(ps) && s[0] == QUOTE;
    assert ParseValue(s) == Parsed(String(PiecesMeaning(ps)), []);
  }

  /** The text `"a`. */
  lemma OpenInput()
    ensures var a: Char := 'a' as int; Parse([QUOTE, a], true) == Parsed(String([a]), []) && Unterminated([QUOTE, a])
  {
    var a: Char := 'a' as int;
    var ps := [Plain(a)];
    assert PiecesText(ps) == [a] && PiecesMeaning(ps) == [a] by { assert ps[1..] == []; }
    assert OpenText([], ps) == [QUOTE, a];
    OpenIsAccepted([], ps, true);
    SkipTwice([QUOTE, a]);
  }

  // ----- Documents ------------------------------------------------------------------------

  /** White space, a value, and `rest`. */
  ghost predicate StartsWithValue(s: Text, v: Value, rest: Text) {
    exists lead, t {:trigger DocumentText(lead, t, rest)} ::
      AllBlank(GapSet(lead)) && AllBlank(Gaps(t)) && s == DocumentText(lead, t, rest) && v == Meaning(t)
  }

  /** White space around one value. */
  ghost predicate IsDocument(s: Text, v: Value) {
    exists trail :: AllBlank(GapSet(trail)) && StartsWithValue(s, v, GapsText(trail))
  }

  /** White space and a string that is never closed. */
  ghost predicate IsOpenDocument(s: Text, v: Value) {
    exists lead, ps {:trigger OpenText(lead, ps)} ::
      AllBlank(GapSet(lead)) && s == OpenText(lead, ps) && v == String(PiecesMeaning(ps))
  }

  /** Whatever is accepted, with or without a look at the rest. */
  lemma {:induction false} AcceptedStarts(s: Text, toEnd: bool)
    requires Parse(s, toEnd).Parsed?
    ensures var r := ParseValue(Skip(s));
            && r.Parsed? && Parse(s, toEnd).value == r.value
            && if Unterminated(Skip(s)) then IsOpenDocument(s, r.value) && r.rest == [] else StartsWithValue(s, r.value, r.rest)
  {
    var lead := SkippedIs(s);
    var s1 := Skip(s);
    var r := ParseValue(s1);
    if Unterminated(s1) {
      var ps := StringIs(s1);
      assert s == OpenText(lead, ps);
    } else {
      var t := ValueIs(s1, r);
      assert s == DocumentText(lead, t, r.rest);
    }
  }

  /** Exactly the documents of the grammar are accepted to their end, and strings left open there. */
  lemma AcceptedIff(s: Text, v: Value)
    ensures Parse(s, true) == Parsed(v, []) <==> IsDocument(s, v) || IsOpenDocument(s, v)
  {
    if Parse(s, true) == Parsed(v, []) {
      AcceptedStarts(s, true);
      var r := ParseValue(Skip(s));
      if !Unterminated(Skip(s)) {
        var trail := SkippedIs(r.rest);
        assert GapsText(trail) + [] == GapsText(trail);
        assert StartsWithValue(s, v, GapsText(trail));
      }
    }
    if IsDocument(s, v) {
      var trail :| AllBlank(GapSet(trail)) && StartsWithValue(s, v, GapsText(trail));
      var lead, t :| AllBlank(GapSet(lead)) && AllBlank(Gaps(t)) && s == DocumentText(lead, t, GapsText(trail)) && v == Meaning(t);
      ParseDocument(lead, t, trail, true);
    }
    if IsOpenDocument(s, v) {
      var lead, ps :| AllBlank(GapSet(lead)) && s == OpenText(lead, ps) && v == String(PiecesMeaning(ps));
      OpenIsAccepted(lead, ps, true);
    }
  }

  /** Among the accepted texts, those whose string is left open are the ones that are no documents. */
  lemma {:induction false} OpenIff(s: Text, v: Value)
    requires Parse(s, true) == Parsed(v, [])
    ensures IsOpenDocument(s, v) <==> Unterminated(Skip(s))
    ensures IsDocument(s, v) <==> !Unterminated(Skip(s))
  {
    AcceptedIff(s, v);
    AcceptedStarts(s, true);
    if IsOpenDocument(s, v) {
      var lead, ps :| AllBlank(GapSet(lead)) && s == OpenText(lead, ps) && v == String(PiecesMeaning(ps));
      OpenIsAccepted(lead, ps, true);
    }
    if IsDocument(s, v) {
      var trail :| AllBlank(GapSet(trail)) && StartsWithValue(s, v, GapsText(trail));
      var lead, t :| AllBlank(GapSet(lead)) && AllBlank(Gaps(t)) && s == DocumentText(lead, t, GapsText(trail)) && v == Meaning(t);
      SkipToTree(lead, t, GapsText(trail));
      NotOpen(t, GapsText(trail));
    }
  }

  lemma NotOpen(t: Syntax, rest: Text)
    ensures !Unterminated(Render(t) + rest)
  {
    var s := Render(t) + rest;
    RenderStarts(t);
    match t {
      case TString(ps) =>
        assert s[1..] == PiecesText(ps) + ([QUOTE] + rest);
        BodyLengthOf(ps, rest);
      case TNumber(n) =>
      case _ => assert s[0] == Render(t)[0];
    }
  }

  // ----- Strings and RFC 8259 ---------------------------------------------------------------

  /** What section 7 of RFC 8259 lets stand behind a backslash. */
  predicate EscapeLetter(c: Char) {
    c == QUOTE || c == BACKSLASH || c == SLASH
    || c == 'b' as int || c == 'f' as int || c == 'n' as int || c == 'r' as int || c == 't' as int || c == 'u' as int
  }

  /** The string bodies of section 7 of RFC 8259. */
  predicate Section7(b: Text) {
    b == [] ||
    if b[0] != BACKSLASH then b[0] != QUOTE && b[0] >= SPACE && Section7(b[1..])
    else
      && |b| > 1 && EscapeLetter(b[1])
      && if b[1] != 'u' as int then Section7(b[2..]) else |b| >= 6 && AllHex(b[2..6]) && Section7(b[6..])
  }

  /** The bytes behind the backslashes that start an escape. */
  function EscapeLetters(b: Text): seq<Char> {
    if |b| < 2 then [] else if b[0] == BACKSLASH then [b[1]] + EscapeLetters(b[2..]) else EscapeLetters(b[1..])
  }

  /** No raw control byte, and no letter of its own behind a backslash. */
  predicate Tame(b: Text) {
    (forall i | 0 <= i < |b| :: b[i] >= SPACE) && forall i | 0 <= i < |EscapeLetters(b)| :: EscapeLetter(EscapeLetters(b)[i])
  }

  lemma TamePlain(b: Text)
    requires b != [] && b[0] != BACKSLASH
    ensures Tame(b) <==> b[0] >= SPACE && Tame(b[1..])
  {
    assert EscapeLetters(b) == EscapeLetters(b[1..]);
    assert forall i | 0 < i < |b| :: b[i] == b[1..][i - 1];
  }

  lemma TameEscape(b: Text)
    requires |b| > 1 && b[0] == BACKSLASH
    ensures Tame(b) <==> EscapeLetter(b[1]) && Tame(b[2..])
  {
    var more := EscapeLetters(b[2..]);
    assert EscapeLetters(b) == [b[1]] + more;
    assert forall i | 0 < i < |EscapeLetters(b)| :: EscapeLetters(b)[i] == more[i - 1];
    assert forall i | 1 < i < |b| :: b[i] == b[2..][i - 2];
    if Tame(b) {
      assert EscapeLetter(EscapeLetters(b)[0]);
      forall i | 0 <= i < |more| ensures EscapeLetter(more[i]) { assert more[i] == EscapeLetters(b)[i + 1]; }
    }
  }

  lemma {:induction false} TameHex(h: Text, b: Text)
    requires AllHex(h)
    ensures Tame(h + b) <==> Tame(b)
  {
    if h == [] {
      assert h + b == b;
    } else {
      assert (h + b)[1..] == h[1..] + b;
      TamePlain(h + b);
      TameHex(h[1..], b);
    }
  }

  /** An accepted body is one of section 7 exactly if it has no raw control byte and no other escape letter. */
  lemma {:induction false} Section7Iff(b: Text)
    requires BodyLength(b) == |b| && Decode(b).Some?
    ensures Section7(b) <==> Tame(b)
    decreases |b|
  {
    if b == [] {
    } else if b[0] != BACKSLASH {
      TamePlain(b);
      Section7Iff(b[1..]);
    } else if b[1] != 'u' as int {
      TameEscape(b);
      Section7Iff(b[2..]);
    } else {
      var tail := UnicodeTail(b);
      Section7Iff(tail);
    }
  }

  /** What stands behind a \u escape or a pair of them. */
  lemma UnicodeTail(b: Text) returns (tail: Text)
    requires |b| > 1 && b[0] == BACKSLASH && b[1] == 'u' as int && BodyLength(b) == |b| && Decode(b).Some?
    ensures |tail| < |b| && BodyLength(tail) == |tail| && Decode(tail).Some?
    ensures (Section7(b) <==> Section7(tail)) && (Tame(b) <==> Tame(tail))
  {
    var p := PieceIs(b);
    tail := b[|PieceText(p)|..];
    UnicodePiece(b, p);
    TameUnicode(b, p);
    BodyLengthPiece(p, tail);
  }

  lemma UnicodePiece(b: Text, p: Piece)
    requires |b| > 1 && b[0] == BACKSLASH && b[1] == 'u' as int && PieceText(p) <= b
    ensures (p.Unicode? || p.Surrogates?) && b == PieceText(p) + b[|PieceText(p)|..]
  {
    assert PieceText(p)[0] == b[0] && (|PieceText(p)| > 1 ==> PieceText(p)[1] == b[1]);
  }

  lemma TameUnicode(b: Text, p: Piece)
    requires PieceText(p) <= b && (p.Unicode? || p.Surrogates?)
    ensures var tail := b[|PieceText(p)|..]; (Section7(b) <==> Section7(tail)) && (Tame(b) <==> Tame(tail))
  {
    assert b == PieceText(p) + b[|PieceText(p)|..];
    if p.Unicode? {
      OneUnicode(p.hex, b, b[6..]);
    } else {
      assert b[6..] == [BACKSLASH, 'u' as int] + p.lo + b[12..];
      OneUnicode(p.hi, b, b[6..]);
      OneUnicode(p.lo, b[6..], b[12..]);
    }
  }

  lemma OneUnicode(h: Hex, b: Text, tail: Text)
    requires b == [BACKSLASH, 'u' as int] + h + tail
    ensures (Section7(b) <==> Section7(tail)) && (Tame(b) <==> Tame(tail))
  {
    assert b[2..6] == h && b[6..] == tail && b[2..] == h + tail;
    TameEscape(b);
    TameHex(h, tail);
  }

  /** The bodies `\q` and a raw line feed. */
  lemma LooseInputs()
    ensures var q: Char := 'q' as int;
            Decode([BACKSLASH, q]) == Some([q]) && !Tame([BACKSLASH, q]) && Decode([LF]) == Some([LF]) && !Tame([LF])
  {
    var q: Char := 'q' as int;
    var b: Text, c: Text := [BACKSLASH, q], [LF];
    assert b[2..] == [] && c[1..] == [] && [q] + [] == [q] && [LF] + [] == c;
    assert Decode(b[2..]) == Some([]) && Decode(c[1..]) == Some([]);
    TameEscape(b);
    TamePlain(c);
  }
}
