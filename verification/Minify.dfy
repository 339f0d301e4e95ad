/** cJSON_Minify: what it does to any text, and that it preserves meaning on JSON with comments. */
module Minify {
  import opened Bytes
  import opened Json
  import opened Grammar
  import opened JsonPrint
  import opened Recognition

  predicate IsWhite(c: byte) {
    c == SPACE || c == TAB || c == CR || c == LF
  }

  /** Bytes up to the end of the line. */
  function LineLength(s: Text): (n: nat)
    ensures n <= |s|
  {
    if s == [] || s[0] == LF then 0 else 1 + LineLength(s[1..])
  }

  /** Bytes up to and including the first star-slash pair, wherever it starts. */
  function CommentLength(s: Text): (n: Option<nat>)
    ensures n.Some? ==> 2 <= n.value <= |s|
  {
    if |s| < 2 then None
    else if s[0] == STAR && s[1] == SLASH then Some(2)
    else
      var n := CommentLength(s[1..]);
      if n.Some? then Some(n.value + 1) else None
  }

  /** None where the C code would run past the terminator: an unfinished comment or string. */
  function Minified(s: Text): Option<Text>
    decreases |s|
  {
    if s == [] then Some([])
    else if IsWhite(s[0]) then Minified(s[1..])
    else if s[0] == SLASH && Head(s[1..]) == SLASH then Minified(s[LineLength(s)..])
    else if s[0] == SLASH && Head(s[1..]) == STAR then
      var n := CommentLength(s);
      if n.Some? then Minified(s[n.value..]) else None
    else if s[0] == QUOTE then
      var n := BodyLength(s[1..]) + 2;
      if n <= |s| then Prepend(s[..n], Minified(s[n..])) else None
    else Prepend(s[..1], Minified(s[1..]))
  }

  // ----- Meaning is preserved -------------------------------------------------

  /** White space and comments as the minifier knows them. */
  predicate Removable(g: Gap) {
    match g
    case Blank(c) => IsWhite(c)
    case LineComment(body) => LF !in body
    case BlockComment(body) =>
      var b := [STAR] + body;
      forall i | 0 <= i < |b| - 1 :: !(b[i] == STAR && b[i + 1] == SLASH)
  }

  predicate AllRemovable(gs: set<Gap>) {
    forall g | g in gs :: Removable(g)
  }

  /** Gaps the minifier takes out, and blanks of the parser that it does not know. */
  predicate AllPassable(gs: set<Gap>) {
    forall g | g in gs :: Removable(g) || IsBlank(g)
  }

  /** The gaps that stay: control bytes. */
  function Staying(gs: seq<Gap>): seq<Gap> {
    if gs == [] then [] else if Removable(gs[0]) then Staying(gs[1..]) else [gs[0]] + Staying(gs[1..])
  }

  /** The same tree without the gaps that are taken out. */
  function Strip(t: Syntax): Syntax
    decreases t, 0
  {
    match t
    case TEmptyArray(inside) => TEmptyArray(Staying(inside))
    case TEmptyObject(inside) => TEmptyObject(Staying(inside))
    case TArray(first, more) => TArray(StripElem(first), StripMore(more))
    case TObject(lead, others) => TObject(StripField(lead), StripOthers(others))
    case _ => t
  }

  function StripElem(e: Elem): Elem
    decreases e, 0
  {
    Elem(Staying(e.before), Strip(e.value), Staying(e.after))
  }

  function StripMore(es: seq<Elem>): seq<Elem>
    decreases es, 0
  {
    if es == [] then [] else [StripElem(es[0])] + StripMore(es[1..])
  }

  function StripField(f: Field): Field
    decreases f, 0
  {
    Field(Staying(f.before), f.key, Staying(f.gap), StripElem(f.elem))
  }

  function StripOthers(fs: seq<Field>): seq<Field>
    decreases fs, 0
  {
    if fs == [] then [] else [StripField(fs[0])] + StripOthers(fs[1..])
  }

  lemma {:induction false} LineLengthOf(body: Text, s: Text)
    requires LF !in body
    ensures LineLength(body + ([LF] + s)) == |body|
  {
    var t := body + ([LF] + s);
    if body == [] {
      assert t == [LF] + s;
    } else {
      assert t[1..] == body[1..] + ([LF] + s);
      LineLengthOf(body[1..], s);
    }
  }

  lemma {:induction false} CommentLengthOf(b: Text, s: Text)
    requires forall i | 0 <= i < |b| - 1 :: !(b[i] == STAR && b[i + 1] == SLASH)
    ensures CommentLength(b + ([STAR, SLASH] + s)) == Some(|b| + 2)
  {
    var t := b + ([STAR, SLASH] + s);
    if b == [] {
      assert t == [STAR, SLASH] + s;
    } else {
      assert t[1..] == b[1..] + ([STAR, SLASH] + s);
      CommentLengthOf(b[1..], s);
    }
  }

  /** In front of any text, `x` is minified to `y`. */
  ghost predicate Shrinks(x: Text, y: Text) {
    forall s: Text {:trigger Minified(x + s)} :: Minified(x + s) == Prepend(y, Minified(s))
  }

  lemma ShrinkBoth(x: Text, y: Text, x': Text, y': Text)
    requires Shrinks(x, y) && Shrinks(x', y')
    ensures Shrinks(x + x', y + y')
  {
    forall s: Text ensures Minified(x + x' + s) == Prepend(y + y', Minified(s)) {
      assert x + x' + s == x + (x' + s);
      PrependTwice(y, y', Minified(s));
    }
  }

  lemma ShrinkNothing()
    ensures Shrinks([], [])
  {
    forall s: Text ensures Minified([] + s) == Prepend([], Minified(s)) {
      assert [] + s == s;
      if Minified(s).Some? { assert [] + Minified(s).value == Minified(s).value; }
    }
  }

  lemma ShrinkGap(g: Gap)
    requires Removable(g)
    ensures Shrinks(GapText(g), [])
  {
    forall s: Text ensures Minified(GapText(g) + s) == Prepend([], Minified(s)) {
      GapIsDropped(g, s);
      if Minified(s).Some? { assert [] + Minified(s).value == Minified(s).value; }
    }
  }

  lemma GapIsDropped(g: Gap, s: Text)
    requires Removable(g)
    ensures Minified(GapText(g) + s) == Minified(s)
  {
    match g
    case Blank(c) => Split([c], s);
    case LineComment(body) => LineIsDropped([SLASH, SLASH] + body, s);
    case BlockComment(body) =>
      assert GapText(g) + s == [SLASH] + ([STAR] + body) + ([STAR, SLASH] + s);
      BlockIsDropped([STAR] + body, s);
  }

  lemma LineIsDropped(line: Text, s: Text)
    requires |line| >= 2 && line[0] == SLASH && line[1] == SLASH && LF !in line
    ensures Minified(line + [LF] + s) == Minified(s)
  {
    Assoc(line, [LF], s);
    var t := line + ([LF] + s);
    Split(line, [LF] + s);
    Split([LF], s);
    LineLengthOf(line, s);
    assert Head(t[1..]) == SLASH;
    assert Minified(t) == Minified(t[|line|..]);
  }

  lemma BlockIsDropped(b: Text, s: Text)
    requires b != [] && b[0] == STAR && forall i | 0 <= i < |b| - 1 :: !(b[i] == STAR && b[i + 1] == SLASH)
    ensures Minified([SLASH] + b + ([STAR, SLASH] + s)) == Minified(s)
  {
    var t := [SLASH] + b + ([STAR, SLASH] + s);
    CommentLengthOf([SLASH] + b, s);
    Assoc([SLASH] + b, [STAR, SLASH], s);
    Split([SLASH] + b + [STAR, SLASH], s);
    assert Head(t[1..]) == STAR;
    assert Minified(t) == Minified(t[|b| + 3..]);
  }

  predicate Untouched(c: byte) {
    !IsWhite(c) && c != SLASH && c != QUOTE
  }

  lemma {:induction false} ShrinkToken(tok: Text)
    requires forall i | 0 <= i < |tok| :: Untouched(tok[i])
    ensures Shrinks(tok, tok)
  {
    if tok == [] {
      ShrinkNothing();
    } else {
      forall s: Text ensures Minified(tok[..1] + s) == Prepend(tok[..1], Minified(s)) {
        assert (tok[..1] + s)[1..] == s && (tok[..1] + s)[..1] == tok[..1];
      }
      ShrinkToken(tok[1..]);
      ShrinkBoth(tok[..1], tok[..1], tok[1..], tok[1..]);
      assert tok[..1] + tok[1..] == tok;
    }
  }

  /** A blank that is no white space to the minifier. */
  lemma StayingGap(c: Char)
    requires c <= SPACE && !IsWhite(c)
    ensures Shrinks([c], [c])
  {
    ShrinkToken([c]);
  }

  lemma {:induction false} ShrinkGaps(gs: seq<Gap>)
    requires AllPassable(GapSet(gs))
    ensures Shrinks(GapsText(gs), GapsText(Staying(gs)))
  {
    if gs == [] {
      ShrinkNothing();
    } else {
      assert Removable(gs[0]) || IsBlank(gs[0]) by { assert gs[0] in GapSet(gs); }
      assert GapSet(gs[1..]) <= GapSet(gs);
      ShrinkGaps(gs[1..]);
      if Removable(gs[0]) {
        ShrinkGap(gs[0]);
        ShrinkBoth(GapText(gs[0]), [], GapsText(gs[1..]), GapsText(Staying(gs[1..])));
        assert [] + GapsText(Staying(gs)) == GapsText(Staying(gs));
      } else {
        StayingGap(gs[0].c);
        ShrinkBoth(GapText(gs[0]), GapText(gs[0]), GapsText(gs[1..]), GapsText(Staying(gs[1..])));
        assert Staying(gs)[1..] == Staying(gs[1..]);
      }
    }
  }

  /** What stays are blanks of the parser, and stays again. */
  lemma {:induction false} StayingBlanks(gs: seq<Gap>)
    ensures AllPassable(GapSet(gs)) ==> AllBlank(GapSet(Staying(gs)))
    ensures AllRemovable(GapSet(gs)) ==> Staying(gs) == []
    ensures Staying(Staying(gs)) == Staying(gs)
  {
    if gs != [] {
      assert GapSet(gs) == {gs[0]} + GapSet(gs[1..]) by { assert gs == [gs[0]] + gs[1..]; }
      StayingBlanks(gs[1..]);
      if !Removable(gs[0]) {
        var more := Staying(gs[1..]);
        assert ([gs[0]] + more)[1..] == more && GapSet([gs[0]] + more) == {gs[0]} + GapSet(more);
      }
    }
  }

  lemma {:induction false} QuotedIsKept(body: Text, s: Text)
    requires BodyLength(body + ([QUOTE] + s)) == |body|
    ensures Minified([QUOTE] + body + [QUOTE] + s) == Prepend([QUOTE] + body + [QUOTE], Minified(s))
  {
    var q := [QUOTE] + body + [QUOTE];
    var t := q + s;
    Split(q, s);
    Assoc([QUOTE] + body, [QUOTE], s);
    Assoc([QUOTE], body, [QUOTE] + s);
    Split([QUOTE], body + ([QUOTE] + s));
    assert t[0] == QUOTE && |t| >= |q|;
    assert Minified(t) == Prepend(t[..|q|], Minified(t[|q|..]));
  }

  lemma ShrinkString(ps: seq<Piece>)
    ensures Shrinks(Quoted(ps), Quoted(ps))
  {
    forall s: Text ensures Minified(Quoted(ps) + s) == Prepend(Quoted(ps), Minified(s)) {
      BodyLengthOf(ps, s);
      QuotedIsKept(PiecesText(ps), s);
    }
  }

  lemma NumberUntouched(n: NumToken)
    ensures forall i | 0 <= i < |NumText(n)| :: Untouched(NumText(n)[i])
  {
    forall c: byte | IsDigit(c) || c == MINUS || c == PLUS || c == POINT || IsExponentMark(c) ensures Untouched(c) {}
    var e := ExpText(n.exp);
    assert forall i | 0 <= i < |e| :: Untouched(e[i]);
    var f := FracText(n.frac);
    assert forall i | 0 <= i < |f| :: Untouched(f[i]);
  }

  /** Minifying removes exactly the gaps. */
  lemma {:induction false} ShrinkTree(t: Syntax)
    requires AllPassable(Gaps(t))
    ensures Shrinks(Render(t), Render(Strip(t)))
    decreases t, 1, 0
  {
    match t
    case TNull => ShrinkToken(NULL_TEXT);
    case TFalse => ShrinkToken(FALSE_TEXT);
    case TTrue => ShrinkToken(TRUE_TEXT);
    case TNumber(num) =>
      NumberUntouched(num);
      ShrinkToken(NumText(num));
    case TString(ps) => ShrinkString(ps);
    case TEmptyArray(inside) => ShrinkEmpty(LBRACKET, inside, RBRACKET);
    case TEmptyObject(inside) => ShrinkEmpty(LBRACE, inside, RBRACE);
    case TArray(first, more) =>
      ShrinkElem(first);
      ShrinkMore(t, more);
      ShrinkJoin(LBRACKET, RenderElem(first), RenderElem(StripElem(first)), RenderMore(more), RenderMore(StripMore(more)));
    case TObject(lead, others) =>
      ShrinkField(lead);
      ShrinkOthers(t, others);
      ShrinkJoin(LBRACE, RenderField(lead), RenderField(StripField(lead)), RenderOthers(others), RenderOthers(StripOthers(others)));
  }

  lemma ShrinkJoin(mark: Char, x: Text, y: Text, x': Text, y': Text)
    requires Untouched(mark) && Shrinks(x, y) && Shrinks(x', y')
    ensures Shrinks([mark] + (x + x'), [mark] + (y + y'))
  {
    ShrinkToken([mark]);
    ShrinkBoth(x, y, x', y');
    ShrinkBoth([mark], [mark], x + x', y + y');
  }

  lemma ShrinkEmpty(open: Char, inside: seq<Gap>, close: Char)
    requires AllPassable(GapSet(inside)) && Untouched(open) && Untouched(close)
    ensures Shrinks([open] + (GapsText(inside) + [close]), [open] + (GapsText(Staying(inside)) + [close]))
  {
    ShrinkGaps(inside);
    ShrinkToken([close]);
    ShrinkJoin(open, GapsText(inside), GapsText(Staying(inside)), [close], [close]);
  }

  /** A part between gaps. */
  lemma {:induction false} ShrinkBetween(before: seq<Gap>, x: Text, y: Text, after: seq<Gap>)
    requires AllPassable(GapSet(before)) && AllPassable(GapSet(after)) && Shrinks(x, y)
    ensures Shrinks(GapsText(before) + (x + GapsText(after)), GapsText(Staying(before)) + (y + GapsText(Staying(after))))
  {
    ShrinkGaps(before);
    ShrinkGaps(after);
    ShrinkBoth(x, y, GapsText(after), GapsText(Staying(after)));
    ShrinkBoth(GapsText(before), GapsText(Staying(before)), x + GapsText(after), y + GapsText(Staying(after)));
  }

  lemma {:induction false} ShrinkElem(e: Elem)
    requires AllPassable(ElemGaps(e))
    ensures Shrinks(RenderElem(e), RenderElem(StripElem(e)))
    decreases e, 2, 0
  {
    ShrinkTree(e.value);
    ShrinkBetween(e.before, Render(e.value), Render(Strip(e.value)), e.after);
  }

  lemma {:induction false} ShrinkMore(whole: Syntax, es: seq<Elem>)
    requires forall i | 0 <= i < |es| :: es[i] < whole && AllPassable(ElemGaps(es[i]))
    ensures Shrinks(RenderMore(es), RenderMore(StripMore(es)))
    decreases whole, 0, |es|
  {
    if es == [] {
      ShrinkToken([RBRACKET]);
    } else {
      ShrinkElem(es[0]);
      ShrinkMore(whole, es[1..]);
      ShrinkJoin(COMMA, RenderElem(es[0]), RenderElem(StripElem(es[0])), RenderMore(es[1..]), RenderMore(StripMore(es[1..])));
      RenderMoreCons(StripElem(es[0]), StripMore(es[1..]));
    }
  }

  lemma {:induction false} ShrinkField(f: Field)
    requires AllPassable(FieldGaps(f))
    ensures Shrinks(RenderField(f), RenderField(StripField(f)))
    decreases f, 3, 0
  {
    var e, e' := RenderElem(f.elem), RenderElem(StripElem(f.elem));
    ShrinkElem(f.elem);
    ShrinkToken([COLON]);
    ShrinkBoth([COLON], [COLON], e, e');
    var g, g' := GapsText(f.gap), GapsText(Staying(f.gap));
    ShrinkGaps(f.gap);
    ShrinkBoth(g, g', [COLON] + e, [COLON] + e');
    ShrinkString(f.key);
    ShrinkBoth(Quoted(f.key), Quoted(f.key), g + ([COLON] + e), g' + ([COLON] + e'));
    ShrinkGaps(f.before);
    ShrinkBoth(GapsText(f.before), GapsText(Staying(f.before)), Quoted(f.key) + (g + ([COLON] + e)), Quoted(f.key) + (g' + ([COLON] + e')));
  }

  lemma {:induction false} ShrinkOthers(whole: Syntax, fs: seq<Field>)
    requires forall i | 0 <= i < |fs| :: fs[i] < whole && AllPassable(FieldGaps(fs[i]))
    ensures Shrinks(RenderOthers(fs), RenderOthers(StripOthers(fs)))
    decreases whole, 0, |fs|
  {
    if fs == [] {
      ShrinkToken([RBRACE]);
    } else {
      ShrinkField(fs[0]);
      ShrinkOthers(whole, fs[1..]);
      ShrinkJoin(COMMA, RenderField(fs[0]), RenderField(StripField(fs[0])), RenderOthers(fs[1..]), RenderOthers(StripOthers(fs[1..])));
      RenderOthersCons(StripField(fs[0]), StripOthers(fs[1..]));
    }
  }

  /** The value is the same, and the gaps that stay are blanks of the parser. */
  lemma {:induction false} StripMeaning(t: Syntax)
    requires AllPassable(Gaps(t))
    ensures Meaning(Strip(t)) == Meaning(t) && AllBlank(Gaps(Strip(t)))
    decreases t, 1, 0
  {
    match t
    case TEmptyArray(inside) => StayingBlanks(inside);
    case TEmptyObject(inside) => StayingBlanks(inside);
    case TArray(first, more) =>
      StripElemMeaning(first);
      StripMoreMeaning(t, more);
      BlankElems(StripElem(first), StripMore(more));
    case TObject(lead, others) =>
      StripFieldMeaning(lead);
      StripOthersMeaning(t, others);
      BlankFields(StripField(lead), StripOthers(others));
    case _ =>
  }

  lemma {:induction false} StripElemMeaning(e: Elem)
    requires AllPassable(ElemGaps(e))
    ensures Meaning(StripElem(e).value) == Meaning(e.value) && AllBlank(ElemGaps(StripElem(e)))
    decreases e, 0, 0
  {
    StripMeaning(e.value);
    StayingBlanks(e.before);
    StayingBlanks(e.after);
  }

  lemma {:induction false} StripMoreMeaning(whole: Syntax, es: seq<Elem>)
    requires forall i | 0 <= i < |es| :: es[i] < whole && AllPassable(ElemGaps(es[i]))
    ensures MoreMeaning(StripMore(es)) == MoreMeaning(es) && ElemsBlank(StripMore(es))
    decreases whole, 0, |es|
  {
    if es != [] {
      StripElemMeaning(es[0]);
      StripMoreMeaning(whole, es[1..]);
      MeaningCons(StripElem(es[0]), StripMore(es[1..]));
    }
  }

  lemma {:induction false} StripFieldMeaning(f: Field)
    requires AllPassable(FieldGaps(f))
    ensures FieldMeaning(StripField(f)) == FieldMeaning(f) && AllBlank(FieldGaps(StripField(f)))
    decreases f, 1, 0
  {
    StripElemMeaning(f.elem);
    StayingBlanks(f.before);
    StayingBlanks(f.gap);
  }

  lemma {:induction false} StripOthersMeaning(whole: Syntax, fs: seq<Field>)
    requires forall i | 0 <= i < |fs| :: fs[i] < whole && AllPassable(FieldGaps(fs[i]))
    ensures OthersMeaning(StripOthers(fs)) == OthersMeaning(fs) && FieldsBlank(StripOthers(fs))
    decreases whole, 0, |fs|
  {
    if fs != [] {
      StripFieldMeaning(fs[0]);
      StripOthersMeaning(whole, fs[1..]);
      OthersMeaningCons(StripField(fs[0]), StripOthers(fs[1..]));
    }
  }

  /**
   JSON with comments: the minified document is accepted, means what the tree means, and is a
   fixed point of the minifier.
   */
  lemma {:induction false} MinifyPreservesMeaning(lead: seq<Gap>, t: Syntax, trail: seq<Gap>)
    requires AllPassable(GapSet(lead)) && AllPassable(Gaps(t)) && AllPassable(GapSet(trail))
    ensures var m := Minified(DocumentText(lead, t, GapsText(trail)));
            m.Some? && Parse(m.value, true) == Parsed(Meaning(t), []) && Minified(m.value) == m
  {
    MinifyDocument(lead, t, trail);
    StripMeaning(t);
    StripTwice(t);
    StayingBlanks(lead);
    StayingBlanks(trail);
    MinifyDocument(Staying(lead), Strip(t), Staying(trail));
    ParseDocument(Staying(lead), Strip(t), Staying(trail), true);
  }

  lemma {:induction false} MinifyDocument(lead: seq<Gap>, t: Syntax, trail: seq<Gap>)
    requires AllPassable(GapSet(lead)) && AllPassable(Gaps(t)) && AllPassable(GapSet(trail))
    ensures Minified(DocumentText(lead, t, GapsText(trail)))
         == Some(DocumentText(Staying(lead), Strip(t), GapsText(Staying(trail))))
  {
    ShrinkTree(t);
    ShrinkBetween(lead, Render(t), Render(Strip(t)), trail);
    MinifyWhole(DocumentText(lead, t, GapsText(trail)), DocumentText(Staying(lead), Strip(t), GapsText(Staying(trail))));
  }

  /**
   Every text the parser accepts to its end is minified to a text that it accepts as the same
   value, unless its string is left open: there the minifier would run past the terminator.
   */
  lemma {:induction false} MinifyAccepted(s: Text, v: Value)
    requires Parse(s, true) == Parsed(v, [])
    ensures Minified(s).Some? <==> !Unterminated(Skip(s))
    ensures Minified(s).Some? ==> Parse(Minified(s).value, true) == Parsed(v, []) && Minified(Minified(s).value) == Minified(s)
  {
    OpenIff(s, v);
    if IsDocument(s, v) {
      var trail :| AllBlank(GapSet(trail)) && StartsWithValue(s, v, GapsText(trail));
      var lead, t :| AllBlank(GapSet(lead)) && AllBlank(Gaps(t)) && s == DocumentText(lead, t, GapsText(trail)) && v == Meaning(t);
      MinifyPreservesMeaning(lead, t, trail);
    } else {
      var lead, ps :| AllBlank(GapSet(lead)) && s == OpenText(lead, ps) && v == String(PiecesMeaning(ps));
      ShrinkGaps(lead);
      OpenIsNotMinified(ps);
      assert Minified(GapsText(lead) + ([QUOTE] + PiecesText(ps))) == Prepend(GapsText(Staying(lead)), None);
    }
  }

  lemma {:induction false} OpenIsNotMinified(ps: seq<Piece>)
    ensures Minified([QUOTE] + PiecesText(ps)) == None
  {
    var s := [QUOTE] + PiecesText(ps);
    OpenLength(ps);
    assert s[1..] == PiecesText(ps) && s[0] == QUOTE;
  }

  lemma {:induction false} MinifyWhole(x: Text, y: Text)
    requires Shrinks(x, y)
    ensures Minified(x) == Some(y)
  {
    assert x + [] == x && y + [] == y && Minified([]) == Some([]);
  }

  lemma {:induction false} StripTwice(t: Syntax)
    ensures Strip(Strip(t)) == Strip(t)
    decreases t, 1, 0
  {
    match t
    case TEmptyArray(inside) => StayingBlanks(inside);
    case TEmptyObject(inside) => StayingBlanks(inside);
    case TArray(first, more) =>
      StripElemTwice(first);
      StripMoreTwice(t, more);
    case TObject(lead, others) =>
      StripFieldTwice(lead);
      StripOthersTwice(t, others);
    case _ =>
  }

  lemma {:induction false} StripElemTwice(e: Elem)
    ensures StripElem(StripElem(e)) == StripElem(e)
    decreases e, 0, 0
  {
    StripTwice(e.value);
    StayingBlanks(e.before);
    StayingBlanks(e.after);
  }

  lemma {:induction false} StripMoreTwice(whole: Syntax, es: seq<Elem>)
    requires forall i | 0 <= i < |es| :: es[i] < whole
    ensures StripMore(StripMore(es)) == StripMore(es)
    decreases whole, 0, |es|
  {
    if es != [] {
      StripElemTwice(es[0]);
      StripMoreTwice(whole, es[1..]);
      assert StripMore(es)[1..] == StripMore(es[1..]);
    }
  }

  lemma {:induction false} StripFieldTwice(f: Field)
    ensures StripField(StripField(f)) == StripField(f)
    decreases f, 1, 0
  {
    StripElemTwice(f.elem);
    StayingBlanks(f.before);
    StayingBlanks(f.gap);
  }

  lemma {:induction false} StripOthersTwice(whole: Syntax, fs: seq<Field>)
    requires forall i | 0 <= i < |fs| :: fs[i] < whole
    ensures StripOthers(StripOthers(fs)) == StripOthers(fs)
    decreases whole, 0, |fs|
  {
    if fs != [] {
      StripFieldTwice(fs[0]);
      StripOthersTwice(whole, fs[1..]);
      assert StripOthers(fs)[1..] == StripOthers(fs[1..]);
    }
  }

  lemma LayoutGoes(fmt: bool, t: Text)
    requires forall i | 0 <= i < |t| :: IsLayout(Blank(t[i]))
    ensures Staying(Blanks(If(fmt, t))) == [] == Blanks(If(false, t))
  {
    LayoutBlanks(fmt, t);
    StayingBlanks(Blanks(If(fmt, t)));
  }

  lemma BreakGoes(fmt: bool, depth: nat, depth': nat)
    ensures Staying(Break(fmt, depth)) == [] == Break(false, depth')
  {
    LayoutGoes(fmt, [LF] + Tabs(depth));
  }

  /** Without its layout, printed text is the compact text of the same value. */
  lemma {:induction false} StripPrinted(v: Value, depth: nat, depth': nat, fmt: bool, fp: FloatText)
    ensures Strip(PrintTree(v, depth, fmt, fp)) == PrintTree(v, depth', false, fp)
    decreases v, 1, 0
  {
    match v
    case Array(items) =>
      if items != [] {
        StripPrinted(items[0], depth + 1, depth' + 1, fmt, fp);
        StripItems(v, items[1..], depth + 1, depth' + 1, fmt, fp);
      }
    case Object(members) => StripObject(v, members, depth, depth', fmt, fp);
    case _ =>
  }

  lemma {:induction false} StripObject(whole: Value, members: seq<Member>, depth: nat, depth': nat, fmt: bool, fp: FloatText)
    requires forall i | 0 <= i < |members| :: members[i] < whole
    ensures Strip(PrintTree(Object(members), depth, fmt, fp)) == PrintTree(Object(members), depth', false, fp)
    decreases whole, 0, |members| + 1
  {
    BreakGoes(fmt, depth, depth');
    if members != [] {
      StripMember(members[0], |members| == 1, depth + 1, depth' + 1, fmt, fp);
      StripMembers(whole, members[1..], depth + 1, depth' + 1, fmt, fp);
    }
  }

  lemma {:induction false} StripItems(whole: Value, items: seq<Value>, depth: nat, depth': nat, fmt: bool, fp: FloatText)
    requires forall i | 0 <= i < |items| :: items[i] < whole
    ensures StripMore(ItemTrees(items, depth, fmt, fp)) == ItemTrees(items, depth', false, fp)
    decreases whole, 0, |items|
  {
    if items != [] {
      StripPrinted(items[0], depth, depth', fmt, fp);
      LayoutGoes(fmt, [SPACE]);
      StripItems(whole, items[1..], depth, depth', fmt, fp);
      assert ItemTrees(items, depth, fmt, fp)[1..] == ItemTrees(items[1..], depth, fmt, fp);
    }
  }

  lemma {:induction false} StripMember(m: Member, last: bool, depth: nat, depth': nat, fmt: bool, fp: FloatText)
    requires depth > 0 && depth' > 0
    ensures StripField(MemberTree(m, last, depth, fmt, fp)) == MemberTree(m, last, depth', false, fp)
    decreases m, 1, 0
  {
    StripPrinted(m.value, depth, depth', fmt, fp);
    BreakGoes(fmt, depth, depth');
    BreakGoes(fmt, depth - 1, depth' - 1);
    LayoutGoes(fmt, [TAB]);
  }

  lemma {:induction false} StripMembers(whole: Value, ms: seq<Member>, depth: nat, depth': nat, fmt: bool, fp: FloatText)
    requires depth > 0 && depth' > 0 && forall i | 0 <= i < |ms| :: ms[i] < whole
    ensures StripOthers(MemberTrees(ms, depth, fmt, fp)) == MemberTrees(ms, depth', false, fp)
    decreases whole, 0, |ms|
  {
    if ms != [] {
      StripMember(ms[0], |ms| == 1, depth, depth', fmt, fp);
      StripMembers(whole, ms[1..], depth, depth', fmt, fp);
      assert MemberTrees(ms, depth, fmt, fp)[1..] == MemberTrees(ms[1..], depth, fmt, fp);
    }
  }

  /** Minifying either print of a tree gives its compact print. */
  lemma MinifyPrinted(v: Value, fmt: bool, fp: FloatText)
    ensures Minified(Print(v, 0, fmt, fp)) == Some(Print(v, 0, false, fp))
  {
    var t := PrintTree(v, 0, fmt, fp);
    PrintTreeText(v, 0, fmt, fp);
    PrintTreeText(v, 0, false, fp);
    PrintTreeGaps(v, 0, fmt, fp);
    StripPrinted(v, 0, 0, fmt, fp);
    ShrinkTree(t);
    MinifyWhole(Render(t), Render(Strip(t)));
  }

  // ----- Minifying twice --------------------------------------------------------------

  /** The first byte that is kept, or the terminator. */
  function NextKept(s: Text): byte
    decreases |s|
  {
    if s == [] then 0
    else if IsWhite(s[0]) then NextKept(s[1..])
    else if s[0] == SLASH && Head(s[1..]) == SLASH then NextKept(s[LineLength(s)..])
    else if s[0] == SLASH && Head(s[1..]) == STAR then
      var n := CommentLength(s);
      if n.Some? then NextKept(s[n.value..]) else 0
    else s[0]
  }

  /** No slash that is kept outside a string is brought up against a slash or a star. */
  predicate JoinsNothing(s: Text)
    decreases |s|
  {
    if s == [] then true
    else if IsWhite(s[0]) then JoinsNothing(s[1..])
    else if s[0] == SLASH && Head(s[1..]) == SLASH then JoinsNothing(s[LineLength(s)..])
    else if s[0] == SLASH && Head(s[1..]) == STAR then
      var n := CommentLength(s);
      n.Some? ==> JoinsNothing(s[n.value..])
    else if s[0] == QUOTE then
      var n := BodyLength(s[1..]) + 2;
      n <= |s| ==> JoinsNothing(s[n..])
    else (s[0] == SLASH ==> NextKept(s[1..]) != SLASH && NextKept(s[1..]) != STAR) && JoinsNothing(s[1..])
  }

  lemma {:induction false} MinifiedShrinks(s: Text)
    ensures Minified(s).Some? ==> |Minified(s).value| <= |s|
    decreases |s|
  {
    if s == [] {
    } else if IsWhite(s[0]) {
      MinifiedShrinks(s[1..]);
    } else if s[0] == SLASH && Head(s[1..]) == SLASH {
      MinifiedShrinks(s[LineLength(s)..]);
    } else if s[0] == SLASH && Head(s[1..]) == STAR {
      if CommentLength(s).Some? { MinifiedShrinks(s[CommentLength(s).value..]); }
    } else if s[0] == QUOTE {
      var n := BodyLength(s[1..]) + 2;
      if n <= |s| { MinifiedShrinks(s[n..]); }
    } else {
      MinifiedShrinks(s[1..]);
    }
  }

  /** A byte in front of minified text is kept again, but for a slash that begins a comment now. */
  lemma KeptAgain(c: Char, m: Text)
    requires !IsWhite(c) && c != QUOTE
    ensures if c == SLASH && (Head(m) == SLASH || Head(m) == STAR) then Minified([c] + m) != Some([c] + m)
            else Minified([c] + m) == Prepend([c], Minified(m))
  {
    var t := [c] + m;
    assert t[1..] == m && t[..1] == [c];
    if c == SLASH && Head(m) == SLASH {
      assert LineLength(t) >= 2;
      MinifiedShrinks(t[LineLength(t)..]);
    } else if c == SLASH && Head(m) == STAR {
      if CommentLength(t).Some? { MinifiedShrinks(t[CommentLength(t).value..]); }
    }
  }

  /** A string is kept again, whatever follows it. */
  lemma {:induction false} StringAgain(q: Text, s: Text, m: Text)
    requires s != [] && s[0] == QUOTE && BodyLength(s[1..]) + 2 <= |s| && q == s[..BodyLength(s[1..]) + 2]
    ensures Minified(q + m) == Prepend(q, Minified(m)) && q[0] == QUOTE
  {
    var n := BodyLength(s[1..]);
    var body := s[1..][..n];
    assert s[1..] == body + s[1..][n..];
    BodyCut(s[1..], [QUOTE] + m);
    assert q == [QUOTE] + body + [QUOTE];
    QuotedIsKept(body, m);
  }

  /** The end of a string body depends on nothing behind it. */
  lemma {:induction false} BodyCut(s: Text, tail: Text)
    requires BodyLength(s) < |s| && tail != [] && tail[0] == QUOTE
    ensures BodyLength(s[..BodyLength(s)] + tail) == BodyLength(s)
    decreases |s|
  {
    var n := BodyLength(s);
    var t := s[..n] + tail;
    if s[0] == QUOTE {
      assert t == tail;
    } else if s[0] == BACKSLASH && |s| > 1 {
      BodyCut(s[2..], tail);
      assert s[2..][..n - 2] + tail == t[2..];
    } else {
      BodyCut(s[1..], tail);
      assert s[1..][..n - 1] + tail == t[1..];
    }
  }

  lemma PrependSame(x: Text, m: Text, r: Option<Text>)
    ensures Prepend(x, r) == Some(x + m) <==> r == Some(m)
  {
    if r.Some? && x + r.value == x + m { assert (x + r.value)[|x|..] == (x + m)[|x|..]; }
  }

  /** A second pass changes nothing exactly where the first brought no comment mark together. */
  lemma {:induction false} IdempotentIff(s: Text)
    requires Minified(s).Some?
    ensures var m := Minified(s).value; (Minified(m) == Some(m) <==> JoinsNothing(s)) && Head(m) == NextKept(s)
    decreases |s|
  {
    if s == [] {
    } else if IsWhite(s[0]) {
      IdempotentIff(s[1..]);
    } else if s[0] == SLASH && Head(s[1..]) == SLASH {
      IdempotentIff(s[LineLength(s)..]);
    } else if s[0] == SLASH && Head(s[1..]) == STAR {
      IdempotentIff(s[CommentLength(s).value..]);
    } else if s[0] == QUOTE {
      var n := BodyLength(s[1..]) + 2;
      IdempotentIff(s[n..]);
      var m := Minified(s[n..]).value;
      StringAgain(s[..n], s, m);
      PrependSame(s[..n], m, Minified(m));
    } else {
      IdempotentIff(s[1..]);
      var m := Minified(s[1..]).value;
      assert s[..1] == [s[0]];
      KeptAgain(s[0], m);
      PrependSame([s[0]], m, Minified(m));
    }
  }

  /** An input that a second pass changes. */
  lemma NotIdempotent()
    ensures Minified([SLASH, SPACE, SLASH]) == Some([SLASH, SLASH])
    ensures !JoinsNothing([SLASH, SPACE, SLASH]) && Minified([SLASH, SLASH]) == Some([])
  {
    var s: Text := [SLASH, SPACE, SLASH];
    assert s[1..] == [SPACE] + [SLASH] && Head(s[1..]) == SPACE;
    var one: Text := [SLASH];
    assert one[1..] == [] && one[..1] + [] == one && Head(one[1..]) == 0;
    assert Minified(one) == Some(one);
    assert NextKept(one) == SLASH;
    GapIsDropped(Blank(SPACE), [SLASH]);
    assert s[1..][0] == SPACE && s[1..][1..] == one;
    assert NextKept(s[1..]) == SLASH;
    assert Minified(s) == Prepend(s[..1], Minified(s[1..]));
    assert s[..1] + [SLASH] == [SLASH, SLASH];
    var t: Text := [SLASH, SLASH];
    assert t[1..] == [SLASH] && LineLength(t) == 2 && t[2..] == [];
  }

  /**
   A comment ends behind the first star-slash pair of its body, unless its body starts with a
   slash: then the star that opens it closes it.
   */
  lemma {:induction false} StarClosesIff(t: Text)
    ensures var n := CommentLength(t);
            CommentLength([SLASH, STAR] + t) == if Head(t) == SLASH then Some(3) else if n.Some? then Some(2 + n.value) else None
    ensures CommentLength(t).Some? ==>
              (CommentLength([SLASH, STAR] + t) == Some(2 + CommentLength(t).value) <==> Head(t) != SLASH)
  {
    var s := [SLASH, STAR] + t;
    assert s[1..] == [STAR] + t && s[1..][1..] == t;
    if t != [] { assert s[2] == t[0]; }
  }

  /** Such a comment is dropped as it stands, and what was its body is kept. */
  lemma StarCloses(s: Text)
    ensures Minified([SLASH, STAR, SLASH] + s) == Minified(s)
  {
    var t := [SLASH, STAR] + ([SLASH] + s);
    StarClosesIff([SLASH] + s);
    assert t == [SLASH, STAR, SLASH] + s && t[3..] == s && Head(t[1..]) == STAR;
  }

  // ----- By bytes ---------------------------------------------------------------

  /** No space, tab, line feed or carriage return outside strings, each of which is closed. */
  predicate Bare(s: Text)
    decreases |s|
  {
    if s == [] then true
    else if s[0] == 34 then BodyLength(s[1..]) + 2 <= |s| && Bare(s[BodyLength(s[1..]) + 2..])
    else s[0] != 32 && s[0] != 9 && s[0] != 10 && s[0] != 13 && Bare(s[1..])
  }

  /** Whatever the input, none is left. */
  lemma {:induction false} MinifiedIsBare(s: Text)
    ensures Minified(s).Some? ==> Bare(Minified(s).value)
    decreases |s|
  {
    if s == [] || Minified(s).None? {
    } else if IsWhite(s[0]) {
      MinifiedIsBare(s[1..]);
    } else if s[0] == SLASH && Head(s[1..]) == SLASH {
      MinifiedIsBare(s[LineLength(s)..]);
    } else if s[0] == SLASH && Head(s[1..]) == STAR {
      MinifiedIsBare(s[CommentLength(s).value..]);
    } else if s[0] == QUOTE {
      var n := BodyLength(s[1..]) + 2;
      MinifiedIsBare(s[n..]);
      BareBehind(s, Minified(s[n..]).value);
    } else {
      MinifiedIsBare(s[1..]);
      var m := Minified(s[1..]).value;
      assert (s[..1] + m)[1..] == m;
    }
  }

  lemma BareBehind(s: Text, m: Text)
    requires s != [] && s[0] == QUOTE && BodyLength(s[1..]) + 2 <= |s| && Bare(m)
    ensures Bare(s[..BodyLength(s[1..]) + 2] + m)
  {
    var n := BodyLength(s[1..]);
    var t := s[..n + 2] + m;
    BodyCut(s[1..], [QUOTE] + m);
    assert t[1..] == s[1..][..n] + ([QUOTE] + m) && t[n + 2..] == m;
  }

  /** Without the four white bytes. */
  function WithoutWhite(s: Text): Text {
    if s == [] then [] else (if s[0] == 32 || s[0] == 9 || s[0] == 10 || s[0] == 13 then [] else [s[0]]) + WithoutWhite(s[1..])
  }

  /** Where there are no strings and no slashes, exactly the white bytes go. */
  lemma {:induction false} MinifiedPlain(s: Text)
    requires forall i | 0 <= i < |s| :: s[i] != 34 && s[i] != 47
    ensures Minified(s) == Some(WithoutWhite(s))
  {
    if s != [] {
      MinifiedPlain(s[1..]);
      assert s[..1] == [s[0]] && [] + WithoutWhite(s[1..]) == WithoutWhite(s[1..]);
    }
  }

  /** What becomes of strings, slashes and comments in front of any text. */
  lemma MinifiedMarks(body: Text, s: Text)
    ensures BodyLength(body + ([34] + s)) == |body| ==> Minified([34] + body + [34] + s) == Prepend([34] + body + [34], Minified(s))
    ensures 10 !in body ==> Minified([47, 47] + body + [10] + s) == Minified(s)
    ensures (forall i | 0 <= i < |[42] + body| - 1 :: !(([42] + body)[i] == 42 && ([42] + body)[i + 1] == 47)) ==>
              Minified([47, 42] + body + [42, 47] + s) == Minified(s)
    ensures Head(s) != 47 && Head(s) != 42 ==> Minified([47] + s) == Prepend([47], Minified(s))
  {
    if BodyLength(body + ([34] + s)) == |body| { QuotedIsKept(body, s); }
    if 10 !in body { GapIsDropped(LineComment(body), s); }
    if Removable(BlockComment(body)) { GapIsDropped(BlockComment(body), s); }
    assert ([47] + s)[1..] == s && ([47] + s)[..1] == [47];
  }

  // ----- In place ---------------------------------------------------------------

  predicate CString(a: array<byte>, n: nat)
    reads a
  {
    n < a.Length && a[n] == 0 && forall i | 0 <= i < n :: a[i] != 0
  }

  /** The unread part of the buffer still holds the unread text. */
  ghost predicate Unread(a: array<byte>, text: Text, json: nat)
    reads a
  {
    json <= |text| < a.Length && a[|text|] == 0 && forall i | json <= i < |text| :: a[i] == text[i]
  }

  method SkipLine(a: array<byte>, ghost text: Text, json: nat) returns (j: nat)
    requires Unread(a, text, json)
    ensures j == json + LineLength(text[json..])
  {
    j := json;
    while a[j] != 0 && a[j] != LF
      invariant json <= j <= |text| && LineLength(text[json..]) == j - json + LineLength(text[j..])
      decreases |text| - j
    {
      assert text[j..][1..] == text[j + 1..];
      j := j + 1;
    }
  }

  method SkipComment(a: array<byte>, ghost text: Text, json: nat) returns (j: nat)
    requires Unread(a, text, json) && CommentLength(text[json..]).Some?
    ensures j == json + CommentLength(text[json..]).value
  {
    j := json;
    while a[j] != 0 && !(a[j] == STAR && a[j + 1] == SLASH)
      invariant json <= j <= |text| && CommentLength(text[j..]).Some?
      invariant CommentLength(text[json..]).value == j - json + CommentLength(text[j..]).value
      decreases |text| - j
    {
      assert text[j..][1..] == text[j + 1..];
      j := j + 1;
    }
    j := j + 2;
  }

  /** `*into++=*json++`: nothing unread is overwritten because `into` never passes `json`. */
  method CopyByte(a: array<byte>, ghost text: Text, ghost out: Text, into: nat, json: nat) returns (i: nat, j: nat, ghost out': Text)
    requires Unread(a, text, json) && into <= json < |text| && a[..into] == out
    modifies a
    ensures i == into + 1 && j == json + 1 && out' == out + text[json..j]
    ensures Unread(a, text, j) && a[..i] == out' && a[|text|..] == old(a[|text|..])
  {
    a[into] := a[json];
    i, j, out' := into + 1, json + 1, out + text[json..json + 1];
    assert a[..i] == a[..into] + [a[into]];
  }

  lemma BodyStep(text: Text, j: nat)
    requires j < |text| && text[j] != QUOTE && BodyEnd(text, j) < |text|
    ensures text[j] != BACKSLASH ==> BodyEnd(text, j) == BodyEnd(text, j + 1)
    ensures text[j] == BACKSLASH ==> j + 2 <= |text| && BodyEnd(text, j) == BodyEnd(text, j + 2)
  {
    assert text[j..][1..] == text[j + 1..];
    if j + 1 < |text| { assert text[j..][2..] == text[j + 2..]; }
  }

  lemma Grow(out: Text, text: Text, a: nat, b: nat, c: nat)
    requires a <= b <= c <= |text|
    ensures out + text[a..b] + text[b..c] == out + text[a..c]
  {
    assert text[a..b] + text[b..c] == text[a..c];
  }

  /** One byte of a string, or two when the first is a backslash. */
  method CopyUnit(a: array<byte>, ghost text: Text, ghost out: Text, into: nat, json: nat) returns (i: nat, j: nat, ghost out': Text)
    requires Unread(a, text, json) && into <= json < |text| && a[..into] == out
    requires text[json] != QUOTE && BodyEnd(text, json) < |text|
    modifies a
    ensures json < j <= |text| && i - into == j - json && out' == out + text[json..j]
    ensures BodyEnd(text, j) == BodyEnd(text, json)
    ensures Unread(a, text, j) && a[..i] == out' && a[|text|..] == old(a[|text|..])
  {
    i, j, out' := into, json, out;
    BodyStep(text, json);
    if a[j] == BACKSLASH {
      i, j, out' := CopyByte(a, text, out', i, j);
    }
    i, j, out' := CopyByte(a, text, out', i, j);
    Grow(out, text, json, j - 1, j);
  }

  method CopyString(a: array<byte>, ghost text: Text, ghost out: Text, into: nat, json: nat) returns (i: nat, j: nat, ghost out': Text)
    requires Unread(a, text, json) && into <= json < |text| && a[..into] == out
    requires text[json] == QUOTE && BodyEnd(text, json + 1) < |text|
    modifies a
    ensures j == BodyEnd(text, json + 1) + 1 && i - into == j - json
    ensures out' == out + text[json..j]
    ensures Unread(a, text, j) && a[..i] == out' && a[|text|..] == old(a[|text|..])
  {
    i, j, out' := CopyByte(a, text, out, into, json);
    while a[j] != 0 && a[j] != QUOTE
      invariant json < j < |text| && i - into == j - json
      invariant out' == out + text[json..j] && a[..i] == out'
      invariant Unread(a, text, j) && a[|text|..] == old(a[|text|..])
      invariant BodyEnd(text, j) == BodyEnd(text, json + 1) < |text|
      decreases |text| - j
    {
      ghost var j0 := j;
      i, j, out' := CopyUnit(a, text, out', i, j);
      Grow(out, text, json, j0, j);
    }
    ghost var j0 := j;
    i, j, out' := CopyByte(a, text, out', i, j);
    Grow(out, text, json, j0, j);
  }

  /** What is written and what the unread text will add make up the result. */
  ghost predicate Minifying(a: array<byte>, text: Text, out: Text, into: nat, json: nat, result: Text)
    reads a
  {
    && Unread(a, text, json) && into <= json && a[..into] == out
    && Completes(text, json, out, result)
  }

  /** `out` and the minified rest are the result; the trigger keeps the function folded. */
  ghost predicate Completes(text: Text, j: nat, out: Text, result: Text) {
    j <= |text| && forall x {:trigger Minified(x)} :: x == text[j..] ==> Prepend(out, Minified(x)) == Some(result)
  }

  lemma Completed(text: Text, j: nat, out: Text, result: Text)
    requires j == |text| && Completes(text, j, out, result)
    ensures out == result
  {
    assert text[j..] == [] && out + [] == out;
    assert Prepend(out, Minified(text[j..])) == Some(result);
  }

  lemma {:induction false} MinifyStep(text: Text, j: nat, out: Text, result: Text)
    requires j < |text| && Completes(text, j, out, result)
    ensures var s, c, d := text[j..], text[j], Peek(text, j + 1);
            if IsWhite(c) then Completes(text, j + 1, out, result)
            else if c == SLASH && d == SLASH then Completes(text, j + LineLength(s), out, result)
            else if c == SLASH && d == STAR then
              CommentLength(s).Some? && Completes(text, j + CommentLength(s).value, out, result)
            else if c == QUOTE then
              var e := BodyEnd(text, j + 1) + 1; e <= |text| && Completes(text, e, out + text[j..e], result)
            else Completes(text, j + 1, out + text[j..j + 1], result)
  {
    var s := text[j..];
    assert Prepend(out, Minified(s)) == Some(result);
    Cut(text, j, 1);
    if IsWhite(text[j]) {
    } else if text[j] == SLASH && Peek(text, j + 1) == SLASH {
      Cut(text, j, LineLength(s));
    } else if text[j] == SLASH && Peek(text, j + 1) == STAR {
      Cut(text, j, CommentLength(s).value);
    } else {
      KeptStep(text, j, out, result);
    }
  }

  /** A string or another byte is written. */
  lemma KeptStep(text: Text, j: nat, out: Text, result: Text)
    requires j < |text| && Prepend(out, Minified(text[j..])) == Some(result) && !IsWhite(text[j])
    requires !(text[j] == SLASH && (Peek(text, j + 1) == SLASH || Peek(text, j + 1) == STAR))
    ensures var e := if text[j] == QUOTE then BodyEnd(text, j + 1) + 1 else j + 1;
            e <= |text| && Completes(text, e, out + text[j..e], result)
  {
    var s := text[j..];
    Cut(text, j, 1);
    var n := if text[j] == QUOTE then BodyLength(s[1..]) + 2 else 1;
    assert n <= |s| && Minified(s) == Prepend(s[..n], Minified(s[n..]));
    Cut(text, j, n);
    PrependTwice(out, s[..n], Minified(s[n..]));
  }

  lemma Cut(text: Text, j: nat, k: nat)
    requires j + k <= |text|
    ensures text[j..][k..] == text[j + k..] && text[j..][..k] == text[j..j + k]
    ensures Head(text[j..]) == Peek(text, j)
  {}

  /** One turn of the loop. */
  method MinifyNext(a: array<byte>, ghost text: Text, ghost out: Text, into: nat, json: nat, ghost result: Text)
    returns (i: nat, j: nat, ghost out': Text)
    requires Minifying(a, text, out, into, json, result) && a[json] != 0
    modifies a
    ensures j > json && Minifying(a, text, out', i, j, result) && a[|text|..] == old(a[|text|..])
  {
    MinifyStep(text, json, out, result);
    i, out' := into, out;
    if a[json] == SPACE || a[json] == TAB || a[json] == CR || a[json] == LF {
      j := json + 1;
    } else if a[json] == SLASH && a[json + 1] == SLASH {
      j := SkipLine(a, text, json);
    } else if a[json] == SLASH && a[json + 1] == STAR {
      j := SkipComment(a, text, json);
    } else {
      if a[json] == QUOTE {
        i, j, out' := CopyString(a, text, out, into, json);
      } else {
        i, j, out' := CopyByte(a, text, out, into, json);
      }
    }
  }

  /** cJSON_Minify, for every text on which it stays inside the string. */
  method MinifyInPlace(a: array<byte>, n: nat) returns (m: nat)
    requires CString(a, n) && Minified(a[..n]).Some?
    modifies a
    ensures var r := Minified(old(a[..n])).value;
            m == |r| <= n && a[..m] == r && a[m] == 0
    ensures a[n + 1..] == old(a[n + 1..])
  {
    ghost var text: Text, out: Text := a[..n], [];
    ghost var result := Minified(text).value;
    var into: nat, json: nat := 0, 0;
    assert text[0..] == text && [] + result == result;
    while a[json] != 0
      invariant Minifying(a, text, out, into, json, result) && a[n..] == old(a[n..])
      decreases n - json
    {
      into, json, out := MinifyNext(a, text, out, into, json, result);
    }
    Completed(text, json, out, result);
    a[into] := 0;
    m := into;
    assert a[n + 1..] == old(a[n..])[1..];
  }
}
